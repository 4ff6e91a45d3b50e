/** Reading any stream: the tables are consistent afterwards exactly if the counts are not negative and no record that
    stays shares its address with another record that was read. The bucket table may say what it likes. */
module AddrLoad {
  import opened AddrTable
  import opened AddrTableLemmas
  import opened AddrMoves
  import opened AddrSerialize

  /** Every record's address is in the index, and every entry of the index is for a record with that address. */
  ghost predicate Listed(info: map<int, Info>, addr: map<NetAddr, int>) {
    && (forall id :: id in info ==> info[id].service.addr in addr)
    && (forall a :: a in addr ==> addr[a] in info && info[addr[a]].service.addr == a)
  }

  /** Consistent, except that untried records may still lack a cell and that records may share an address. */
  ghost predicate Reading(k: Env, s: State) {
    Placed(k, s) && Counted(s, 0) && 0 <= s.idCount && Listed(s.info, s.addr)
  }

  // ----- pruning

  /** Exactly the records without a cell are gone. */
  lemma {:induction false} PruneRemoves(s: State, id: int)
    requires RandomInverse(s.info, s.random)
    requires forall j :: j in s.info && Pruned(s.info[j]) ==> id <= j < s.idCount
    ensures var t := Prune(s, id);
            && (forall j :: j in t.info <==> j in s.info && !Pruned(s.info[j]))
            && (forall j :: j in t.info ==> SameEntry(t.info[j], s.info[j]))
    decreases s.idCount - id
  {
    hide RandomInverse, Delete;
    if id < s.idCount {
      if id in s.info && Pruned(s.info[id]) {
        DeleteRandom(s, id);
        DeleteFrame(s, id);
        PruneRemoves(Delete(s, id), id + 1);
      } else {
        PruneRemoves(s, id + 1);
      }
    }
  }

  lemma {:induction false} PrunePlaced(k: Env, s: State, id: int)
    requires Placed(k, s) && Counted(s, 0)
    ensures RandomInverse(s.info, s.random) && Placed(k, Prune(s, id)) && Counted(Prune(s, id), 0)
    decreases s.idCount - id
  {
    hide Placed, RandomInverse, Delete, Counted, Pruned;
    Inverse(k, s);
    if id < s.idCount {
      if id in s.info && Pruned(s.info[id]) {
        OnePruned(k, s, id);
        PrunePlaced(k, Delete(s, id), id + 1);
      } else {
        PrunePlaced(k, s, id + 1);
      }
    }
  }

  lemma OnePruned(k: Env, s: State, id: int)
    requires Placed(k, s) && Counted(s, 0) && id in s.info && Pruned(s.info[id])
    ensures RandomInverse(s.info, s.random)
    ensures var t := Delete(s, id); Placed(k, t) && Counted(t, 0) && t.idCount == s.idCount
  {
    hide Placed, RandomInverse, Delete, Counted, SameExcept, SameIdentity;
    Inverse(k, s);
    DeletePlaced(k, s, id);
    DeleteFrame(s, id);
  }

  lemma Inverse(k: Env, s: State)
    requires Placed(k, s)
    ensures RandomInverse(s.info, s.random) && IdsOk(s.info, s.idCount)
  {
  }

  /** The counters only go down. */
  lemma {:induction false} PruneCounts(s: State, id: int)
    requires RandomInverse(s.info, s.random)
    ensures Prune(s, id).nNew <= s.nNew && Prune(s, id).nTried == s.nTried
    decreases s.idCount - id
  {
    hide RandomInverse, Delete;
    if id < s.idCount {
      if id in s.info && Pruned(s.info[id]) {
        DeleteRandom(s, id);
        DeleteFrame(s, id);
        PruneCounts(Delete(s, id), id + 1);
      } else {
        PruneCounts(s, id + 1);
      }
    }
  }

  /** No record that is pruned has this address. */
  ghost predicate Spared(s: State, a: NetAddr) {
    forall j :: j in s.info && Pruned(s.info[j]) ==> s.info[j].service.addr != a
  }

  /** The index loses an address at the latest with the first pruned record that has it, and otherwise keeps it. */
  lemma {:induction false} PruneIndex(s: State, id: int, a: NetAddr)
    requires RandomInverse(s.info, s.random)
    requires forall j :: j in s.info && Pruned(s.info[j]) ==> id <= j < s.idCount
    ensures var t := Prune(s, id);
            && (a in t.addr <==> a in s.addr && Spared(s, a))
            && (a in t.addr ==> t.addr[a] == s.addr[a])
    decreases s.idCount - id
  {
    hide RandomInverse;
    if id < s.idCount {
      if id in s.info && Pruned(s.info[id]) {
        DeleteRandom(s, id);
        var u := Delete(s, id);
        SparedAfter(s, id, a);
        PruneIndex(u, id + 1, a);
      } else {
        PruneIndex(s, id + 1, a);
      }
    }
  }

  lemma SparedAfter(s: State, id: int, a: NetAddr)
    requires RandomInverse(s.info, s.random) && id in s.info && Pruned(s.info[id])
    ensures var u := Delete(s, id);
            && (Spared(s, a) <==> Spared(u, a) && s.info[id].service.addr != a)
            && (a in u.addr <==> a in s.addr && s.info[id].service.addr != a) && (a in u.addr ==> u.addr[a] == s.addr[a])
            && (forall j :: j in u.info <==> j in s.info && j != id)
            && (forall j :: j in u.info ==> SameEntry(u.info[j], s.info[j]))
  {
    DeleteRandom(s, id);
    var u := Delete(s, id);
    hide RandomInverse, Swap;
    assert u.addr == s.addr - {s.info[id].service.addr};
    forall j | j in s.info && j != id ensures j in u.info && SameEntry(u.info[j], s.info[j]) {}
  }

  // ----- the records

  /** A record added at the end, as both record loops do it. */
  function Appended(s: State, v: Saved): State {
    s.(info := s.info[s.idCount := Restore(v, 0, false, |s.random|)],
       addr := s.addr[v.service.addr := s.idCount],
       random := s.random + [s.idCount],
       nNew := s.nNew + 1,
       idCount := s.idCount + 1)
  }

  lemma AppendedKeeps(k: Env, s: State, v: Saved)
    requires Reading(k, s)
    ensures Reading(k, Appended(s, v)) && s.idCount !in s.info
  {
    var a := Address(v.service, v.services, v.time);
    CreatePlaced(k, s, a, v.source);
    var t := Create(s, a, v.source);
    var i := Restore(v, 0, false, |s.random|);
    hide Placed;
    TouchPlaced(k, t, s.idCount, i);
    assert SetInfo(t, s.idCount, i).info == Appended(s, v).info;
    assert Counted(SetInfo(t, s.idCount, i), -1);
    assert SetInfo(t, s.idCount, i).(nNew := s.nNew + 1) == Appended(s, v);
    CounterFree(k, SetInfo(t, s.idCount, i), s.nNew + 1, t.nTried);
  }

  lemma CounterFree(k: Env, s: State, nNew: int, nTried: int)
    requires Placed(k, s)
    ensures Placed(k, s.(nNew := nNew, nTried := nTried))
  {
    hide RandomInverse, NewCellsOk, TriedOk, RefsOk, IdsOk;
  }

  /** The counters run ahead of the records while these are read: this is the state with the counters set back. */
  function Behind(s: State, n: nat): State {
    s.(idCount := n, nNew := n, nTried := 0)
  }

  lemma NewStep(k: Env, s: State, v: Saved, n: nat, usable: bool)
    requires Reading(k, Behind(s, n))
    ensures Reading(k, Behind(LoadNew(k, s, v, n, usable), n + 1))
  {
    AppendedKeeps(k, Behind(s, n), v);
    var t := Appended(Behind(s, n), v);
    var home := NewCell(k, v.service, NewBucket(k, v.service, v.source));
    hide Placed;
    if !usable && home !in s.newCells {
      AddRefPlaced(k, t, n, home);
      assert AddRef(t, n, home).info == LoadNew(k, s, v, n, usable).info;
      assert AddRef(t, n, home) == Behind(LoadNew(k, s, v, n, usable), n + 1);
    } else {
      assert t == Behind(LoadNew(k, s, v, n, usable), n + 1);
    }
  }

  /** Untried records come first. */
  ghost predicate Sorted(s: State, nNew: int) {
    forall id :: id in s.info ==> 0 <= id && (s.info[id].inTried <==> id >= nNew)
  }

  lemma {:induction false} NewReading(k: Env, s: State, vs: seq<Saved>, n: nat, usable: bool)
    requires n <= |vs| && Reading(k, Behind(s, n)) && Sorted(s, |vs|)
    ensures var t := LoadAllNew(k, s, vs, n, usable);
            Reading(k, Behind(t, |vs|)) && Sorted(t, |vs|) && t.nNew == s.nNew && t.nTried == s.nTried
    decreases |vs| - n
  {
    hide Reading;
    if n < |vs| {
      NewStep(k, s, vs[n], n, usable);
      NewReading(k, LoadNew(k, s, vs[n], n, usable), vs, n + 1, usable);
    }
  }

  lemma TriedStep(k: Env, s: State, v: Saved, left: nat)
    requires Reading(k, s.(nTried := s.nTried - left - 1))
    ensures var t := LoadTried(k, s, v); Reading(k, t.(nTried := t.nTried - left))
  {
    var c := TriedCell(k, v.service);
    var u := s.(nTried := s.nTried - left - 1);
    var r := LoadTried(k, s, v);
    hide Placed, TriedCell;
    if c in s.triedCells {
      assert r.(nTried := r.nTried - left) == u;
    } else {
      AppendedKeeps(k, u, v);
      var t := Appended(u, v);
      EnteredPlaced(k, t, u.idCount);
      var e := Entered(k, t, u.idCount);
      assert Counted(e, 1);
      assert e.info == r.info;
      assert e.(nNew := u.nNew) == r.(nTried := r.nTried - left);
      CounterFree(k, e, u.nNew, e.nTried);
    }
  }

  lemma {:induction false} TriedReading(k: Env, s: State, vs: seq<Saved>, n: nat, nNew: int)
    requires n <= |vs| && Reading(k, s.(nTried := s.nTried - (|vs| - n))) && Sorted(s, nNew) && nNew <= s.idCount
    ensures var t := LoadAllTried(k, s, vs, n); Reading(k, t) && Sorted(t, nNew) && t.nNew == s.nNew
    decreases |vs| - n
  {
    hide Reading, TriedCell;
    if n < |vs| {
      TriedStep(k, s, vs[n], |vs| - n - 1);
      NotNegative(k, s.(nTried := s.nTried - (|vs| - n)));
      TriedReading(k, LoadTried(k, s, vs[n]), vs, n + 1, nNew);
    } else {
      assert s.(nTried := s.nTried - (|vs| - n)) == s;
    }
  }

  lemma NotNegative(k: Env, s: State)
    requires Reading(k, s)
    ensures 0 <= s.idCount
  {
  }

  // ----- the bucket table

  lemma {:induction false} RowReading(k: Env, s: State, b: nat, row: seq<int>, usable: bool)
    requires Reading(k, s) && Sorted(s, s.nNew) && (usable ==> b < NEW_BUCKET_COUNT)
    ensures var t := LoadRow(k, s, b, row, usable);
            Reading(k, t) && Sorted(t, s.nNew) && t.nNew == s.nNew && t.idCount == s.idCount
    decreases |row|
  {
    hide Placed, NewCell;
    if row != [] {
      var t := LoadRef(k, s, b, row[0], usable);
      if t != s {
        AtOwnCell(k, s, row[0], b);
        AddRefPlaced(k, s, row[0], NewCell(k, s.info[row[0]].service, b));
      }
      RowReading(k, t, b, row[1..], usable);
    }
  }

  lemma AtOwnCell(k: Env, s: State, id: int, b: nat)
    requires id in s.info
    ensures NewCell(k, s.info[id].service, b).bucket == b
  {
  }

  lemma {:induction false} TableReading(k: Env, s: State, table: seq<seq<int>>, b: nat, usable: bool)
    requires b <= |table| && Reading(k, s) && Sorted(s, s.nNew) && (usable ==> |table| <= NEW_BUCKET_COUNT)
    ensures var t := LoadTable(k, s, table, b, usable);
            Reading(k, t) && Sorted(t, s.nNew) && t.nNew == s.nNew && t.idCount == s.idCount
    decreases |table| - b
  {
    hide LoadRow, Reading, Sorted;
    if b < |table| {
      RowReading(k, s, b, table[b], usable);
      TableReading(k, LoadRow(k, s, b, table[b], usable), table, b + 1, usable);
    }
  }

  // ----- whole streams

  lemma EmptyReading(k: Env, nNew: int, nTried: int, pending: set<int>)
    ensures Reading(k, Behind(EMPTY.(nNew := nNew, nTried := nTried, collisions := pending), 0))
  {
    assert NewIds(EMPTY.info) == {} && TriedIds(EMPTY.info) == {};
  }

  lemma FillReading(k: Env, pending: set<int>, f: Stream)
    requires Complete(f) && f.nNew >= 0 && f.nTried >= 0
    ensures var s := Fill(k, pending, f); Reading(k, s) && Sorted(s, f.nNew) && s.nNew == f.nNew
  {
    hide Reading, LoadAllNew, LoadAllTried, LoadTable;
    var s0 := EMPTY.(nNew := f.nNew, nTried := f.nTried, collisions := pending);
    EmptyReading(k, f.nNew, f.nTried, pending);
    NewReading(k, s0, f.newEntries, 0, Usable(f));
    var s1 := LoadAllNew(k, s0, f.newEntries, 0, Usable(f)).(idCount := f.nNew);
    assert s1.(nTried := s1.nTried - |f.triedEntries|) == Behind(LoadAllNew(k, s0, f.newEntries, 0, Usable(f)), |f.newEntries|);
    TriedReading(k, s1, f.triedEntries, 0, f.nNew);
    TableReading(k, LoadAllTried(k, s1, f.triedEntries, 0), f.table, 0, Usable(f));
  }

  /** No record that stays shares its address with another record that was read. */
  ghost predicate Unshared(s: State) {
    forall i, j :: i in s.info && j in s.info && i != j && s.info[i].service.addr == s.info[j].service.addr ==>
      Pruned(s.info[i])
  }

  /** After the pruning the index is the inverse of the records exactly if no record that stays shared its address. */
  lemma IndexIff(k: Env, s: State)
    requires Reading(k, s) && Sorted(s, s.nNew)
    ensures RandomInverse(s.info, s.random)
    ensures AddrsInverse(Prune(s, 0).info, Prune(s, 0).addr) <==> Unshared(s)
  {
    Inverse(k, s);
    hide Placed, RandomInverse, Prune, Counted, Pruned;
    PruneRemoves(s, 0);
    var t := Prune(s, 0);
    forall a ensures (a in t.addr <==> a in s.addr && Spared(s, a)) && (a in t.addr ==> t.addr[a] == s.addr[a]) {
      PruneIndex(s, 0, a);
    }
    if Unshared(s) { IndexRight(s, t); } else { IndexWrong(s, t); }
  }

  /** The pruning, as far as the index is concerned. */
  ghost predicate PrunedTo(s: State, t: State) {
    && (forall j :: j in t.info <==> j in s.info && !Pruned(s.info[j]))
    && (forall j :: j in t.info ==> SameEntry(t.info[j], s.info[j]))
    && (forall a :: (a in t.addr <==> a in s.addr && Spared(s, a)) && (a in t.addr ==> t.addr[a] == s.addr[a]))
  }

  lemma IndexRight(s: State, t: State)
    requires PrunedTo(s, t) && Listed(s.info, s.addr) && Unshared(s)
    ensures AddrsInverse(t.info, t.addr)
  {
    hide Pruned;
    forall id | id in t.info ensures t.info[id].service.addr in t.addr && t.addr[t.info[id].service.addr] == id {
      var a := s.info[id].service.addr;
      assert SameEntry(t.info[id], s.info[id]) && a in s.addr;
      assert s.addr[a] in s.info && s.info[s.addr[a]].service.addr == a;
      assert Spared(s, a);
    }
    forall a | a in t.addr ensures t.addr[a] in t.info && t.info[t.addr[a]].service.addr == a {
      var id := s.addr[a];
      assert id in s.info && s.info[id].service.addr == a && Spared(s, a);
      assert SameEntry(t.info[id], s.info[id]);
    }
  }

  lemma IndexWrong(s: State, t: State)
    requires PrunedTo(s, t) && !Unshared(s)
    ensures !AddrsInverse(t.info, t.addr)
  {
    hide Pruned;
    var i, j :| i in s.info && j in s.info && i != j && s.info[i].service.addr == s.info[j].service.addr && !Pruned(s.info[i]);
    var a := s.info[i].service.addr;
    assert i in t.info && SameEntry(t.info[i], s.info[i]);
    if Pruned(s.info[j]) {
      assert !Spared(s, a) && a !in t.addr;
    } else {
      assert j in t.info && SameEntry(t.info[j], s.info[j]);
    }
  }

  lemma AllPlaced(k: Env, s: State, t: State)
    requires Placed(k, t)
    requires forall j :: j in t.info <==> j in s.info && !Pruned(s.info[j])
    requires forall j :: j in t.info ==> SameEntry(t.info[j], s.info[j])
    ensures Referenced(t.info, {})
  {
    forall j | j in t.info && !t.info[j].inTried ensures t.info[j].refCount > 0 {
      assert t.info[j].refCount == |CellsOf(t.newCells, j)|;
    }
  }

  lemma PruneSoundIff(k: Env, s: State)
    requires Reading(k, s) && Sorted(s, s.nNew)
    ensures RandomInverse(s.info, s.random)
    ensures Inv(k, Prune(s, 0)) <==> Unshared(s)
  {
    Inverse(k, s);
    hide Placed, RandomInverse, Prune, Counted, Pruned, Unshared, Referenced, AddrsInverse;
    PrunePlaced(k, s, 0);
    PruneRemoves(s, 0);
    AllPlaced(k, s, Prune(s, 0));
    IndexIff(k, s);
  }

  lemma NegativeUnsound(k: Env, s: State, id: int)
    requires RandomInverse(s.info, s.random) && (s.nNew < 0 || s.nTried < 0)
    ensures !Inv(k, Prune(s, id))
  {
    hide RandomInverse, Prune, Linked;
    PruneCounts(s, id);
  }

  /** Every stream that is accepted: the tables are consistent afterwards if and only if the counts are not negative and no
      record that stays shares its address with another record that was read. */
  lemma LoadSoundIff(e: Env, pending: set<int>, f: Stream)
    requires Load(e, pending, f).Loaded?
    ensures var r := Load(e, pending, f);
            Inv(r.env, r.state) <==> f.nNew >= 0 && f.nTried >= 0 && Unshared(Fill(r.env, pending, f))
  {
    hide Fill, Prune, Reading, Unshared, Inv, Sorted, RandomInverse;
    var k := e.(key := f.key);
    FillOrdered(k, pending, f);
    var s := Fill(k, pending, f);
    if f.nNew >= 0 && f.nTried >= 0 {
      FillReading(k, pending, f);
      PruneSoundIff(k, s);
    } else {
      NegativeUnsound(k, s, if f.nNew < 0 then f.nNew else 0);
    }
  }

  // ----- streams of different addresses

  ghost predicate AllDifferent(vs: seq<Saved>) {
    forall i, j :: 0 <= i < j < |vs| ==> vs[i].service.addr != vs[j].service.addr
  }

  /** None of the records from n on has an address in the index. */
  ghost predicate Unknown(vs: seq<Saved>, n: nat, addr: map<NetAddr, int>) {
    forall i :: n <= i < |vs| ==> vs[i].service.addr !in addr
  }

  lemma {:induction false} NewDifferent(k: Env, s: State, vs: seq<Saved>, n: nat, usable: bool, later: seq<Saved>)
    requires n <= |vs| && AllDifferent(vs) && Unknown(vs, n, s.addr) && Unknown(later, 0, s.addr)
    requires AddrsInverse(s.info, s.addr) && forall id :: id in s.info ==> id < n
    requires forall i, j :: 0 <= i < |vs| && 0 <= j < |later| ==> vs[i].service.addr != later[j].service.addr
    ensures var t := LoadAllNew(k, s, vs, n, usable);
            AddrsInverse(t.info, t.addr) && Unknown(later, 0, t.addr) && forall id :: id in t.info ==> id < |vs|
    decreases |vs| - n
  {
    hide NewCell, NewBucket;
    if n < |vs| {
      NewDifferent(k, LoadNew(k, s, vs[n], n, usable), vs, n + 1, usable, later);
    }
  }

  lemma {:induction false} TriedDifferent(k: Env, s: State, vs: seq<Saved>, n: nat)
    requires n <= |vs| && AllDifferent(vs) && Unknown(vs, n, s.addr)
    requires AddrsInverse(s.info, s.addr) && forall id :: id in s.info ==> id < s.idCount
    ensures var t := LoadAllTried(k, s, vs, n); AddrsInverse(t.info, t.addr)
    decreases |vs| - n
  {
    hide TriedCell;
    if n < |vs| {
      TriedDifferent(k, LoadTried(k, s, vs[n]), vs, n + 1);
    }
  }

  lemma {:induction false} RowDifferent(k: Env, s: State, b: nat, row: seq<int>, usable: bool)
    requires AddrsInverse(s.info, s.addr)
    ensures var t := LoadRow(k, s, b, row, usable); AddrsInverse(t.info, t.addr)
    decreases |row|
  {
    hide NewCell;
    if row != [] { RowDifferent(k, LoadRef(k, s, b, row[0], usable), b, row[1..], usable); }
  }

  lemma {:induction false} TableDifferent(k: Env, s: State, table: seq<seq<int>>, b: nat, usable: bool)
    requires b <= |table| && AddrsInverse(s.info, s.addr)
    ensures var t := LoadTable(k, s, table, b, usable); AddrsInverse(t.info, t.addr)
    decreases |table| - b
  {
    hide LoadRow, AddrsInverse;
    if b < |table| {
      RowDifferent(k, s, b, table[b], usable);
      TableDifferent(k, LoadRow(k, s, b, table[b], usable), table, b + 1, usable);
    }
  }

  /** Different addresses, within the untried records, within the tried ones and across both. */
  ghost predicate AddressesDiffer(f: Stream) {
    && AllDifferent(f.newEntries) && AllDifferent(f.triedEntries)
    && forall i, j :: 0 <= i < |f.newEntries| && 0 <= j < |f.triedEntries| ==>
         f.newEntries[i].service.addr != f.triedEntries[j].service.addr
  }

  /** An accepted stream of different addresses, with counts that are not negative, gives consistent tables: what its
      bucket table says wrongly costs at most the records it fails to place. */
  lemma LoadSound(e: Env, pending: set<int>, f: Stream)
    requires Load(e, pending, f).Loaded? && f.nNew >= 0 && f.nTried >= 0 && AddressesDiffer(f)
    ensures var r := Load(e, pending, f); Inv(r.env, r.state)
  {
    var k := e.(key := f.key);
    FillDifferent(k, pending, f);
    hide Fill, Prune, Inv, Pruned;
    LoadSoundIff(e, pending, f);
  }

  lemma FillDifferent(k: Env, pending: set<int>, f: Stream)
    requires Complete(f) && f.nNew >= 0 && f.nTried >= 0 && AddressesDiffer(f)
    ensures var s := Fill(k, pending, f); AddrsInverse(s.info, s.addr) && Unshared(s)
  {
    hide LoadAllNew, LoadAllTried, LoadTable, Pruned;
    var s0 := EMPTY.(nNew := f.nNew, nTried := f.nTried, collisions := pending);
    NewDifferent(k, s0, f.newEntries, 0, Usable(f), f.triedEntries);
    var s1 := LoadAllNew(k, s0, f.newEntries, 0, Usable(f)).(idCount := f.nNew);
    TriedDifferent(k, s1, f.triedEntries, 0);
    TableDifferent(k, LoadAllTried(k, s1, f.triedEntries, 0), f.table, 0, Usable(f));
  }

  // ----- a stream that repeats an address

  /** Two untried records of one address, in the oldest format. */
  function Repeating(key: nat, v: Saved): Stream {
    Stream(0, KEY_SIZE, key, 2, 0, 0, [v, v], [], [])
  }

  /** The stream is accepted. The second record finds its cell taken and is pruned, and takes the address of the first
      out of the index. */
  lemma RepeatedAddress(e: Env, pending: set<int>, key: nat, v: Saved)
    ensures var r := Load(e, pending, Repeating(key, v));
            r.Loaded? && !Inv(r.env, r.state)
  {
    var f := Repeating(key, v);
    var k := e.(key := key);
    assert Load(e, pending, f).Loaded? by { hide Prune, Fill; }
    RepeatingFill(k, pending, f, v);
    hide Prune, Fill, Inv, Pruned;
    LoadSoundIff(e, pending, f);
    var s := Fill(k, pending, f);
    assert 0 in s.info && 1 in s.info;
  }

  lemma RepeatingFill(k: Env, pending: set<int>, f: Stream, v: Saved)
    requires f.version == 0 && f.nNew == 2 && f.newEntries == [v, v] && f.triedEntries == [] && f.table == []
    ensures var s := Fill(k, pending, f);
            && 0 in s.info && 1 in s.info && s.info[0].service == v.service == s.info[1].service
            && !Pruned(s.info[0]) && Pruned(s.info[1])
  {
    hide NewCell, NewBucket;
    var s0 := EMPTY.(nNew := f.nNew, nTried := f.nTried, collisions := pending);
    var s1 := LoadNew(k, s0, v, 0, false);
    var s2 := LoadNew(k, s1, v, 1, false);
    assert LoadAllNew(k, s2, f.newEntries, 2, false) == s2;
    assert LoadAllNew(k, s1, f.newEntries, 1, false) == s2;
    assert LoadAllNew(k, s0, f.newEntries, 0, false) == s2;
  }
}
