/** The loops of Serialize and Unserialize over the manager's own maps and arrays. */
module AddrStream {
  import opened AddrTable
  import opened AddrTableLemmas
  import opened AddrMoves
  import opened AddrMan
  import opened AddrSerialize

  // ----- writing

  /** The records visited so far that satisfy the filter, in order of visit. */
  ghost predicate Visited(info: map<int, Info>, xs: seq<int>, done: set<int>, tried: bool) {
    && (forall i, j :: 0 <= i < j < |xs| ==> xs[i] != xs[j])
    && (forall x :: x in xs <==> x in done && x in info && info[x].inTried == tried)
  }

  lemma VisitedNext(info: map<int, Info>, xs: seq<int>, done: set<int>, tried: bool, n: int)
    requires Visited(info, xs, done, tried) && n in info && n !in done
    ensures Visited(info, if info[n].inTried == tried then xs + [n] else xs, done + {n}, tried)
  {
    if info[n].inTried == tried {
      var ys := xs + [n];
      forall x ensures x in ys <==> x in xs || x == n {
        if x == n { assert ys[|xs|] == n; }
        if x in xs { var i :| 0 <= i < |xs| && xs[i] == x; assert ys[i] == x; }
      }
    }
  }

  lemma VisitedAll(info: map<int, Info>, xs: seq<int>, tried: bool)
    requires Visited(info, xs, info.Keys, tried)
    ensures Lists(xs, if tried then TriedIds(info) else NewIds(info))
  {
  }

  /** Fewer records have been written than there are, as long as one is left. */
  lemma VisitedFewer(info: map<int, Info>, xs: seq<int>, done: set<int>, tried: bool, n: int)
    requires Visited(info, xs, done, tried) && n in info && n !in done && info[n].inTried == tried
    ensures |xs| < |if tried then TriedIds(info) else NewIds(info)|
  {
    var all := if tried then TriedIds(info) else NewIds(info);
    var part := set x | x in all && x in done;
    forall x ensures x in xs <==> x in part {}
    ListSize(xs, part);
    assert n in all && n !in part;
    assert all == part + (all - part);
    assert all - part == (all - part - {n}) + {n};
  }

  lemma SaveNext(info: map<int, Info>, xs: seq<int>, n: int)
    requires (forall i :: 0 <= i < |xs| ==> xs[i] in info) && n in info
    ensures SaveAll(info, xs + [n]) == SaveAll(info, xs) + [Save(info[n])]
  {
    assert (xs + [n])[..|xs|] == xs;
  }

  lemma {:induction false} IndexKept(xs: seq<int>, n: int, x: int)
    requires x in xs
    ensures x in xs + [n] && IndexOf(xs + [n], x) == IndexOf(xs, x)
  {
    if xs[0] != x {
      IndexKept(xs[1..], n, x);
      assert (xs + [n])[1..] == xs[1..] + [n];
    } else {
      assert (xs + [n])[0] == x;
    }
  }

  lemma {:induction false} IndexAdded(xs: seq<int>, n: int)
    requires n !in xs
    ensures n in xs + [n] && IndexOf(xs + [n], n) == |xs|
  {
    assert (xs + [n])[|xs|] == n;
    if xs != [] {
      assert (xs + [n])[1..] == xs[1..] + [n];
      IndexAdded(xs[1..], n);
    }
  }

  /** The map from a record to its number in the list of written untried records. */
  ghost predicate Numbered(ns: seq<int>, ids: map<int, int>) {
    forall x :: x in ns ==> x in ids && ids[x] == IndexOf(ns, x)
  }

  lemma NumberedNext(ns: seq<int>, ids: map<int, int>, n: int)
    requires Numbered(ns, ids) && n !in ns
    ensures Numbered(ns + [n], ids[n := |ns|]) && Numbered(ns, ids[n := |ns|])
  {
    IndexAdded(ns, n);
    var after := ids[n := |ns|];
    forall x | x in ns + [n] ensures x in after && after[x] == IndexOf(ns + [n], x) {
      if x != n {
        assert x in ns;
        IndexKept(ns, n, x);
      }
    }
  }

  lemma VisitedNone(info: map<int, Info>, tried: bool)
    ensures Visited(info, [], {}, tried) && Numbered([], map[]) && SaveAll(info, []) == []
  {
  }

  lemma VisitedIs(info: map<int, Info>, xs: seq<int>, done: set<int>, tried: bool, n: int)
    requires Visited(info, xs, done, tried)
    ensures n !in done ==> n !in xs
    ensures forall i :: 0 <= i < |xs| ==> xs[i] in info
  {
    forall i | 0 <= i < |xs| ensures xs[i] in info { var x := xs[i]; assert x in xs; }
  }

  /** The first record loop: write the untried records and number them. */
  method WriteNew(m: AddrMan) returns (entries: seq<Saved>, mapUnkIds: map<int, int>, ghost ns: seq<int>)
    requires m.Shaped() && Inv(m.env, m.Tables())
    ensures Lists(ns, NewIds(m.mapInfo)) && (forall i :: 0 <= i < |ns| ==> ns[i] in m.mapInfo)
    ensures entries == SaveAll(m.mapInfo, ns)
    ensures Numbered(ns, mapUnkIds)
  {
    hide Inv, Grid, Save, Visited, Numbered, SaveAll, Lists;
    ghost var s := m.Tables();
    entries, mapUnkIds, ns := [], map[], [];
    var nIds := 0;
    var todo := m.mapInfo.Keys;
    ghost var done: set<int> := {};
    VisitedNone(m.mapInfo, false);
    while todo != {}
      invariant todo <= m.mapInfo.Keys && done == m.mapInfo.Keys - todo && nIds == |ns|
      invariant Visited(m.mapInfo, ns, done, false) && (forall i :: 0 <= i < |ns| ==> ns[i] in m.mapInfo)
      invariant entries == SaveAll(m.mapInfo, ns)
      invariant Numbered(ns, mapUnkIds)
      decreases |todo|
    {
      HasMember(todo);
      var n :| n in todo;
      var info := m.mapInfo[n];
      VisitedIs(m.mapInfo, ns, done, false, n);
      NumberedNext(ns, mapUnkIds, n);
      mapUnkIds := mapUnkIds[n := nIds];
      VisitedNext(m.mapInfo, ns, done, false, n);
      CountsOfRecord(m.env, s, n);
      if info.refCount != 0 {
        VisitedFewer(m.mapInfo, ns, done, false, n);
        assert nIds != m.nNew;
        SaveNext(m.mapInfo, ns, n);
        entries := entries + [Save(info)];
        ns := ns + [n];
        nIds := nIds + 1;
      }
      todo, done := todo - {n}, done + {n};
    }
    assert done == m.mapInfo.Keys;
    VisitedAll(m.mapInfo, ns, false);
  }

  lemma CountsOfRecord(k: Env, s: State, n: int)
    requires Inv(k, s) && n in s.info
    ensures s.info[n].refCount != 0 <==> !s.info[n].inTried
    ensures s.nNew == |NewIds(s.info)| && s.nTried == |TriedIds(s.info)|
  {
    if s.info[n].inTried { TriedHasNoRefs(k, s, n); }
  }

  /** The second record loop: write the tried records. */
  method WriteTried(m: AddrMan) returns (entries: seq<Saved>, ghost ts: seq<int>)
    requires m.Shaped() && Inv(m.env, m.Tables())
    ensures Lists(ts, TriedIds(m.mapInfo)) && (forall i :: 0 <= i < |ts| ==> ts[i] in m.mapInfo)
    ensures entries == SaveAll(m.mapInfo, ts)
  {
    hide Inv, Grid, Save, Visited, SaveAll, Lists;
    ghost var s := m.Tables();
    entries, ts := [], [];
    var nIds := 0;
    var todo := m.mapInfo.Keys;
    ghost var done: set<int> := {};
    VisitedNone(m.mapInfo, true);
    while todo != {}
      invariant todo <= m.mapInfo.Keys && done == m.mapInfo.Keys - todo && nIds == |ts|
      invariant Visited(m.mapInfo, ts, done, true) && (forall i :: 0 <= i < |ts| ==> ts[i] in m.mapInfo)
      invariant entries == SaveAll(m.mapInfo, ts)
      decreases |todo|
    {
      HasMember(todo);
      var n :| n in todo;
      var info := m.mapInfo[n];
      VisitedIs(m.mapInfo, ts, done, true, n);
      VisitedNext(m.mapInfo, ts, done, true, n);
      CountsOfRecord(m.env, s, n);
      if info.inTried {
        VisitedFewer(m.mapInfo, ts, done, true, n);
        assert nIds != m.nTried;
        SaveNext(m.mapInfo, ts, n);
        entries := entries + [Save(info)];
        ts := ts + [n];
        nIds := nIds + 1;
      }
      todo, done := todo - {n}, done + {n};
    }
    assert done == m.mapInfo.Keys;
    VisitedAll(m.mapInfo, ts, true);
  }

  /** One bucket of the new table. */
  method WriteRow(m: AddrMan, b: nat, mapUnkIds: map<int, int>, ghost ns: seq<int>) returns (row: seq<int>)
    requires m.Shaped() && b < NEW_BUCKET_COUNT
    requires forall c :: c in Grid(m.vvNew) ==> Grid(m.vvNew)[c] in ns
    requires Numbered(ns, mapUnkIds)
    ensures row == Row(Grid(m.vvNew), ns, b, 0)
  {
    hide Grid, Row;
    ghost var cells := Grid(m.vvNew);
    row := [];
    var i: nat := 0;
    while i < BUCKET_SIZE
      invariant i <= BUCKET_SIZE
      invariant row + Row(cells, ns, b, i) == Row(cells, ns, b, 0)
    {
      ghost var c := Cell(b, i);
      GridAt(m.vvNew, c);
      RowStep(cells, ns, b, i, row);
      if m.vvNew[b, i] != -1 {
        ghost var id := cells[c];
        assert id in ns;
        row := row + [mapUnkIds[m.vvNew[b, i]]];
      }
      i := i + 1;
    }
    RowEnd(cells, ns, b);
  }

  lemma RowStep(cells: Cells, ns: seq<int>, b: nat, i: nat, row: seq<int>)
    requires i < BUCKET_SIZE && forall c :: c in cells ==> cells[c] in ns
    ensures row + Row(cells, ns, b, i) ==
            (if Cell(b, i) in cells then row + [IndexOf(ns, cells[Cell(b, i)])] else row) + Row(cells, ns, b, i + 1)
  {
  }

  lemma RowEnd(cells: Cells, ns: seq<int>, b: nat)
    requires forall c :: c in cells ==> cells[c] in ns
    ensures Row(cells, ns, b, BUCKET_SIZE) == []
  {
  }

  /** Serialize: what it writes is the stream of AddrSerialize, for the orders in which it met the records. */
  method WriteStream(m: AddrMan) returns (f: Stream, ghost w: Source)
    requires m.Shaped() && Inv(m.env, m.Tables())
    ensures w.state == m.Tables() && Writable(m.env, w)
    ensures (forall i :: 0 <= i < |w.ns| ==> w.ns[i] in w.state.info) && (forall i :: 0 <= i < |w.ts| ==> w.ts[i] in w.state.info)
    ensures forall c :: c in w.state.newCells ==> w.state.newCells[c] in w.ns
    ensures f == Serialize(m.env, w.state, w.ns, w.ts)
    ensures f.key == m.env.key && f.nNew == m.nNew && f.nTried == m.nTried && |f.table| == NEW_BUCKET_COUNT
  {
    hide Inv, Grid, Row, Lists;
    var newEntries, mapUnkIds, triedEntries;
    ghost var ns, ts;
    newEntries, mapUnkIds, ns := WriteNew(m);
    triedEntries, ts := WriteTried(m);
    w := Source(m.Tables(), ns, ts);
    WritableSeqs(m.env, w);
    var table := [];
    var b: nat := 0;
    while b < NEW_BUCKET_COUNT
      invariant b <= NEW_BUCKET_COUNT && |table| == b
      invariant forall i :: 0 <= i < b ==> table[i] == Row(w.state.newCells, w.ns, i, 0)
    {
      var row := WriteRow(m, b, mapUnkIds, ns);
      table := table + [row];
      b := b + 1;
    }
    f := Stream(VERSION, KEY_SIZE, m.env.key, m.nNew, m.nTried, Mark(NEW_BUCKET_COUNT), newEntries, triedEntries, table);
  }

  // ----- reading

  method ReadNew(m: AddrMan, v: Saved, n: nat, usable: bool)
    requires m.Shaped()
    modifies m, m.vvNew
    ensures m.Tables() == LoadNew(m.env, old(m.Tables()), v, n, usable)
  {
    hide Grid;
    var info := Restore(v, 0, false, |m.vRandom|);
    m.mapAddr := m.mapAddr[v.service.addr := n];
    m.vRandom := m.vRandom + [n];
    if !usable {
      // The new table data cannot be used: try a reference based on the primary source address.
      var home := NewCell(m.env, v.service, NewBucket(m.env, v.service, v.source));
      GridAt(m.vvNew, home);
      if m.vvNew[home.bucket, home.pos] == -1 {
        SetCell(m.vvNew, home, n);
        info := info.(refCount := info.refCount + 1);
      }
    }
    m.mapInfo := m.mapInfo[n := info];
  }

  method ReadTried(m: AddrMan, v: Saved)
    requires m.Shaped()
    modifies m, m.vvTried
    ensures m.Tables() == LoadTried(m.env, old(m.Tables()), v)
  {
    hide Grid;
    var c := TriedCell(m.env, v.service);
    GridAt(m.vvTried, c);
    if m.vvTried[c.bucket, c.pos] == -1 {
      var id := m.idCount;
      m.mapInfo := m.mapInfo[id := Restore(v, 0, true, |m.vRandom|)];
      m.vRandom := m.vRandom + [id];
      m.mapAddr := m.mapAddr[v.service.addr := id];
      SetCell(m.vvTried, c, id);
      m.idCount := id + 1;
    } else {
      m.nTried := m.nTried - 1;
    }
  }

  method ReadRef(m: AddrMan, b: nat, index: int, usable: bool)
    requires m.Shaped() && (usable ==> b < NEW_BUCKET_COUNT)
    modifies m, m.vvNew
    ensures m.Tables() == LoadRef(m.env, old(m.Tables()), b, index, usable)
  {
    hide Grid;
    if 0 <= index < m.nNew && index in m.mapInfo {
      var info := m.mapInfo[index];
      var c := NewCell(m.env, info.service, b);
      if usable {
        GridAt(m.vvNew, c);
        if m.vvNew[c.bucket, c.pos] == -1 && info.refCount < NEW_BUCKETS_PER_ADDRESS {
          m.mapInfo := m.mapInfo[index := info.(refCount := info.refCount + 1)];
          SetCell(m.vvNew, c, index);
        }
      }
    }
  }

  method ReadRow(m: AddrMan, b: nat, row: seq<int>, usable: bool)
    requires m.Shaped() && (usable ==> b < NEW_BUCKET_COUNT)
    modifies m, m.vvNew
    ensures m.Tables() == LoadRow(m.env, old(m.Tables()), b, row, usable)
  {
    hide Grid, LoadRef;
    ghost var s := m.Tables();
    var n := 0;
    while n < |row|
      invariant 0 <= n <= |row|
      invariant LoadRow(m.env, s, b, row, usable) == LoadRow(m.env, m.Tables(), b, row[n..], usable)
    {
      ReadRef(m, b, row[n], usable);
      assert row[n..][0] == row[n] && row[n..][1..] == row[n + 1..];
      n := n + 1;
    }
  }

  method ReadAllNew(m: AddrMan, vs: seq<Saved>, usable: bool)
    requires m.Shaped()
    modifies m, m.vvNew
    ensures m.Tables() == LoadAllNew(m.env, old(m.Tables()), vs, 0, usable)
  {
    hide Grid, LoadNew;
    ghost var s := m.Tables();
    var n: nat := 0;
    while n < |vs|
      invariant n <= |vs|
      invariant LoadAllNew(m.env, s, vs, 0, usable) == LoadAllNew(m.env, m.Tables(), vs, n, usable)
    {
      ReadNew(m, vs[n], n, usable);
      n := n + 1;
    }
  }

  method ReadAllTried(m: AddrMan, vs: seq<Saved>)
    requires m.Shaped()
    modifies m, m.vvTried
    ensures m.Tables() == LoadAllTried(m.env, old(m.Tables()), vs, 0)
  {
    hide Grid, LoadTried;
    ghost var s := m.Tables();
    var n: nat := 0;
    while n < |vs|
      invariant n <= |vs|
      invariant LoadAllTried(m.env, s, vs, 0) == LoadAllTried(m.env, m.Tables(), vs, n)
    {
      ReadTried(m, vs[n]);
      n := n + 1;
    }
  }

  method ReadTable(m: AddrMan, table: seq<seq<int>>, usable: bool)
    requires m.Shaped() && (usable ==> |table| <= NEW_BUCKET_COUNT)
    modifies m, m.vvNew
    ensures m.Tables() == LoadTable(m.env, old(m.Tables()), table, 0, usable)
  {
    hide Grid, LoadRow;
    ghost var s := m.Tables();
    var b: nat := 0;
    while b < |table|
      invariant b <= |table|
      invariant LoadTable(m.env, s, table, 0, usable) == LoadTable(m.env, m.Tables(), table, b, usable)
    {
      ReadRow(m, b, table[b], usable);
      b := b + 1;
    }
  }

  /** The last loop: the records are visited in order of identifier. */
  method PruneRecords(m: AddrMan, first: int)
    requires RandomInverse(m.mapInfo, m.vRandom)
    modifies m
    ensures m.Tables() == Prune(old(m.Tables()), first)
  {
    hide Grid, Delete, RandomInverse;
    ghost var s := m.Tables();
    var id := first;
    while id < m.idCount
      invariant RandomInverse(m.mapInfo, m.vRandom) && m.idCount == s.idCount
      invariant Prune(s, first) == Prune(m.Tables(), id)
    {
      if id in m.mapInfo && Pruned(m.mapInfo[id]) {
        DeleteRandom(m.Tables(), id);
        DeleteFrame(m.Tables(), id);
        m.Delete(id);
      }
      id := id + 1;
    }
  }

  /** Unserialize, into a cleared manager in which the given collisions are still pending. */
  method ReadStream(e: Env, pending: set<int>, f: Stream) returns (m: AddrMan?)
    ensures m == null <==> Load(e, pending, f).Failed?
    ensures m != null ==> fresh(m) && fresh(m.vvNew) && fresh(m.vvTried) && m.Shaped()
    ensures m != null ==> Load(e, pending, f) == Loaded(m.env, m.Tables())
  {
    hide Grid, LoadAllNew, LoadAllTried, LoadTable, BucketCount, RandomInverse, Prune;
    if f.keySize != KEY_SIZE {
      return null;
    }
    if f.nNew > NEW_BUCKET_COUNT * BUCKET_SIZE || f.nTried > TRIED_BUCKET_COUNT * BUCKET_SIZE {
      return null;
    }
    if !Complete(f) {
      return null;
    }
    m := new AddrMan(e.(key := f.key));
    m.nNew, m.nTried, m.triedCollisions := f.nNew, f.nTried, pending;
    ReadAllNew(m, f.newEntries, Usable(f));
    m.idCount := f.nNew;
    ReadAllTried(m, f.triedEntries);
    ReadTable(m, f.table, Usable(f));
    FillOrdered(m.env, pending, f);
    PruneRecords(m, if f.nNew < 0 then f.nNew else 0);
  }
}
