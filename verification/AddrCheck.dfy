/** The manager's own consistency check, and exactly what it accepts. */
module AddrCheck {
  import opened Arithmetic
  import opened AddrTable
  import opened AddrTableLemmas
  import opened AddrMoves
  import opened AddrOps
  import opened AddrMan

  // ----- what is accepted

  /** Looking up each record's address leads back to it. An address that is not in the index reads as id 0, and
      entries of the index that belong to no record go unseen. */
  ghost predicate Indexed(info: map<int, Info>, addr: map<NetAddr, int>) {
    forall n :: n in info ==> (if info[n].service.addr in addr then addr[info[n].service.addr] else 0) == n
  }

  /** Everything that consistency asks, except for the address index and the bound on ids. */
  ghost predicate Accepted(k: Env, s: State) {
    && Indexed(s.info, s.addr) && RandomInverse(s.info, s.random)
    && NewCellsOk(k, s.info, s.newCells) && TriedOk(k, s.info, s.triedCells)
    && RefsOk(s.info, s.newCells) && Referenced(s.info, {}) && Counted(s, 0)
    && Timed(s.info) && k.key != 0
  }

  /** Every consistent state is accepted. */
  lemma ConsistentAccepted(k: Env, s: State)
    requires Inv(k, s) && Timed(s.info) && k.key != 0
    ensures Accepted(k, s)
  {
    hide RandomInverse, NewCellsOk, TriedOk, RefsOk, Referenced, Counted;
  }

  // ----- the records

  /** The error code of one record, zero if there is nothing wrong with it. */
  function RecordCode(info: Info, addr: map<NetAddr, int>, random: seq<int>, n: int): int {
    if info.inTried && info.lastSuccess == 0 then -1
    else if info.inTried && info.refCount != 0 then -2
    else if !info.inTried && (info.refCount < 0 || info.refCount > NEW_BUCKETS_PER_ADDRESS) then -3
    else if !info.inTried && info.refCount == 0 then -4
    else if (if info.service.addr in addr then addr[info.service.addr] else 0) != n then -5
    else if info.randomPos < 0 || info.randomPos >= |random| || random[info.randomPos] != n then -14
    else if info.lastTry < 0 then -6
    else if info.lastSuccess < 0 then -8
    else 0
  }

  ghost predicate RecordsOk(s: State) {
    forall n :: n in s.info ==> RecordCode(s.info[n], s.addr, s.random, n) == 0
  }

  lemma RecordsPass(k: Env, s: State)
    requires Accepted(k, s)
    ensures RecordsOk(s)
  {
    forall n | n in s.info ensures RecordCode(s.info[n], s.addr, s.random, n) == 0 {
      if s.info[n].inTried { TriedHasNoRefs(k, s, n); }
      assert s.info[n].refCount == |CellsOf(s.newCells, n)|;
    }
  }

  lemma {:induction false} DistinctSize(xs: seq<int>)
    requires forall i, j :: 0 <= i < j < |xs| ==> xs[i] != xs[j]
    ensures |set x | x in xs| == |xs|
  {
    if |xs| > 0 {
      var front := xs[..|xs| - 1];
      DistinctSize(front);
      var last := xs[|xs| - 1];
      assert xs == front + [last];
      assert (set x | x in xs) == (set x | x in front) + {last};
    }
  }

  lemma Partition(info: map<int, Info>)
    ensures |info| == |TriedIds(info)| + |NewIds(info)|
  {
    assert info.Keys == TriedIds(info) + NewIds(info);
    assert TriedIds(info) !! NewIds(info);
  }

  lemma RandomSize(info: map<int, Info>, random: seq<int>)
    requires RandomInverse(info, random)
    ensures |random| == |TriedIds(info)| + |NewIds(info)|
  {
    forall i, j | 0 <= i < j < |random| ensures random[i] != random[j] {
      var a, b := random[i], random[j];
      assert info[a].randomPos == i && info[b].randomPos == j;
    }
    DistinctSize(random);
    forall x ensures x in random <==> x in info.Keys {
      if x in info { assert random[info[x].randomPos] == x; }
      if x in random { var i :| 0 <= i < |random| && random[i] == x; assert x in info; }
    }
    assert (set x | x in random) == info.Keys;
    Partition(info);
  }

  /** Different ids below the bound, as many as the bound: every number below it is the position of one. */
  lemma {:induction false} Positions(info: map<int, Info>, ids: set<int>)
    requires ids <= info.Keys && forall x, y :: x in ids && y in ids && x != y ==> info[x].randomPos != info[y].randomPos
    ensures |set x | x in ids :: info[x].randomPos| == |ids|
    decreases |ids|
  {
    if ids != {} {
      HasMember(ids);
      var n :| n in ids;
      Positions(info, ids - {n});
      assert (set x | x in ids :: info[x].randomPos) == (set x | x in ids - {n} :: info[x].randomPos) + {info[n].randomPos};
    }
  }

  function Below(n: nat): (r: set<int>)
    ensures |r| == n && forall i :: i in r <==> 0 <= i < n
  {
    if n == 0 then {} else Below(n - 1) + {n - 1}
  }

  lemma SubsetFull(a: set<int>, b: set<int>)
    requires a <= b && |a| == |b|
    ensures a == b
  {
    assert |b| == |a| + |b - a|;
    forall x | x in b ensures x in a { assert x in b - a ==> |b - a| > 0; }
  }

  /** The check looks at the order from the records' side only; the count makes up for the other side. */
  lemma OrderIsInverse(s: State)
    requires RecordsOk(s) && |s.random| == |s.info|
    ensures RandomInverse(s.info, s.random)
  {
    forall n | n in s.info ensures 0 <= s.info[n].randomPos < |s.random| && s.random[s.info[n].randomPos] == n {
      assert RecordCode(s.info[n], s.addr, s.random, n) == 0;
    }
    Positions(s.info, s.info.Keys);
    var taken := set x | x in s.info.Keys :: s.info[x].randomPos;
    SubsetFull(taken, Below(|s.random|));
    forall i | 0 <= i < |s.random| ensures s.random[i] in s.info && s.info[s.random[i]].randomPos == i {
      assert i in taken;
      var x :| x in s.info.Keys && s.info[x].randomPos == i;
    }
  }

  ghost function NewRefs(info: map<int, Info>, ids: set<int>): map<int, int> {
    map id | id in ids && id in info && !info[id].inTried :: info[id].refCount
  }

  ghost function TriedAmong(info: map<int, Info>, ids: set<int>): set<int> {
    set id | id in ids && id in info && info[id].inTried
  }

  lemma RecordSorted(info: map<int, Info>, ids: set<int>, n: int)
    requires n in info && n !in ids
    ensures NewRefs(info, ids + {n}) == if info[n].inTried then NewRefs(info, ids) else NewRefs(info, ids)[n := info[n].refCount]
    ensures TriedAmong(info, ids + {n}) == if info[n].inTried then TriedAmong(info, ids) + {n} else TriedAmong(info, ids)
  {
  }

  lemma NothingSorted(info: map<int, Info>)
    ensures NewRefs(info, {}) == map[] && TriedAmong(info, {}) == {}
  {
  }

  /** The scan over the records, in any order. It sorts them into tried ones and reference counts. */
  method CheckRecords(m: AddrMan) returns (code: int, setTried: set<int>, mapNew: map<int, int>)
    ensures code == 0 <==> RecordsOk(m.Tables())
    ensures code == 0 ==> setTried == TriedAmong(m.mapInfo, m.mapInfo.Keys) && mapNew == NewRefs(m.mapInfo, m.mapInfo.Keys)
  {
    hide Grid, RecordCode, NewRefs, TriedAmong;
    setTried, mapNew := {}, map[];
    var todo := m.mapInfo.Keys;
    ghost var done: set<int> := {};
    NothingSorted(m.mapInfo);
    while todo != {}
      invariant todo <= m.mapInfo.Keys && done == m.mapInfo.Keys - todo
      invariant forall n :: n in done ==> RecordCode(m.mapInfo[n], m.mapAddr, m.vRandom, n) == 0
      invariant setTried == TriedAmong(m.mapInfo, done)
      invariant mapNew == NewRefs(m.mapInfo, done)
      decreases |todo|
    {
      HasMember(todo);
      var n :| n in todo;
      var info := m.mapInfo[n];
      code := RecordCode(info, m.mapAddr, m.vRandom, n);
      if code != 0 { return; }
      RecordSorted(m.mapInfo, done, n);
      if info.inTried {
        setTried := setTried + {n};
      } else {
        mapNew := mapNew[n := info.refCount];
      }
      todo, done := todo - {n}, done + {n};
    }
    assert done == m.mapInfo.Keys;
    code := 0;
  }

  // ----- the tried table

  /** Visited before position i of bucket n in the scan of a table. */
  predicate Before(c: Cell, n: nat, i: nat) {
    c.bucket < n || (c.bucket == n && c.pos < i)
  }

  /** The scan has found the address in its own cell. */
  ghost predicate Found(k: Env, info: map<int, Info>, cells: Cells, id: int, n: nat, i: nat)
    requires id in info
  {
    var c := TriedCell(k, info[id].service);
    Before(c, n, i) && c in cells && cells[c] == id
  }

  /** What the scan of the tried table has established: the cells visited are right, and the addresses left over are
      the ones not found yet. */
  ghost predicate TriedScanned(k: Env, info: map<int, Info>, cells: Cells, n: nat, i: nat, left: set<int>) {
    && (forall c :: c in cells && Before(c, n, i) ==>
          cells[c] in info && info[cells[c]].inTried && c == TriedCell(k, info[cells[c]].service))
    && (forall id :: id in left <==> id in info && info[id].inTried && !Found(k, info, cells, id, n, i))
  }

  /** One occupied cell: it is right exactly if the scan's three tests pass. */
  lemma TriedScanStep(k: Env, info: map<int, Info>, cells: Cells, n: nat, i: nat, left: set<int>)
    requires TriedScanned(k, info, cells, n, i, left)
    ensures var c := Cell(n, i);
            && (c !in cells ==> TriedScanned(k, info, cells, n, i + 1, left))
            && (c in cells && cells[c] in left && cells[c] in info && c == TriedCell(k, info[cells[c]].service) ==>
                  TriedScanned(k, info, cells, n, i + 1, left - {cells[c]}))
            && (c in cells && TriedOk(k, info, cells) ==>
                  cells[c] in left && cells[c] in info && c == TriedCell(k, info[cells[c]].service))
  {
    hide TriedCell;
    var c := Cell(n, i);
    forall d: Cell ensures d == c || (Before(d, n, i) <==> Before(d, n, i + 1)) {}
    forall id | id in info
      ensures Found(k, info, cells, id, n, i + 1)
         <==> Found(k, info, cells, id, n, i) || (c == TriedCell(k, info[id].service) && c in cells && cells[c] == id)
    {
    }
    if c in cells && cells[c] in info && c == TriedCell(k, info[cells[c]].service) {
      assert !Found(k, info, cells, cells[c], n, i);
    }
  }

  lemma TriedScanRow(k: Env, info: map<int, Info>, cells: Cells, n: nat, left: set<int>)
    requires forall c :: c in cells ==> c.bucket < TRIED_BUCKET_COUNT && c.pos < BUCKET_SIZE
    ensures TriedScanned(k, info, cells, n, BUCKET_SIZE, left) ==> TriedScanned(k, info, cells, n + 1, 0, left)
    ensures TriedScanned(k, info, cells, 0, 0, TriedIds(info))
    ensures TriedScanned(k, info, cells, TRIED_BUCKET_COUNT, 0, left) ==> (left == {} <==> TriedOk(k, info, cells))
  {
    if TriedScanned(k, info, cells, TRIED_BUCKET_COUNT, 0, left) {
      TriedScanEnd(k, info, cells, left);
    }
  }

  lemma TriedScanEnd(k: Env, info: map<int, Info>, cells: Cells, left: set<int>)
    requires forall c :: c in cells ==> c.bucket < TRIED_BUCKET_COUNT && c.pos < BUCKET_SIZE
    requires TriedScanned(k, info, cells, TRIED_BUCKET_COUNT, 0, left)
    ensures left == {} <==> TriedOk(k, info, cells)
  {
    hide TriedCell;
    if left == {} {
      forall id | id in info && info[id].inTried ensures Found(k, info, cells, id, TRIED_BUCKET_COUNT, 0) {
        assert id !in left;
      }
    }
    if TriedOk(k, info, cells) {
      forall id: int ensures id !in left {}
    }
  }

  /** The scan over the tried table. */
  method CheckTried(m: AddrMan, tried: set<int>) returns (code: int, left: set<int>)
    requires m.Shaped() && tried == TriedAmong(m.mapInfo, m.mapInfo.Keys)
    ensures code == 0 && left == {} <==> TriedOk(m.env, m.mapInfo, Grid(m.vvTried))
  {
    hide Grid, TriedScanned, TriedOk, TriedCell;
    ghost var cells := Grid(m.vvTried);
    GridBounded(m.vvTried);
    left := tried;
    TriedScanRow(m.env, m.mapInfo, cells, 0, left);
    assert tried == TriedIds(m.mapInfo);
    var n: nat := 0;
    while n < TRIED_BUCKET_COUNT
      invariant n <= TRIED_BUCKET_COUNT && left <= tried
      invariant TriedScanned(m.env, m.mapInfo, cells, n, 0, left)
    {
      var i: nat := 0;
      while i < BUCKET_SIZE
        invariant i <= BUCKET_SIZE && left <= tried
        invariant TriedScanned(m.env, m.mapInfo, cells, n, i, left)
      {
        GridAt(m.vvTried, Cell(n, i));
        TriedScanStep(m.env, m.mapInfo, cells, n, i, left);
        var id := m.vvTried[n, i];
        if id != -1 {
          if id !in left { return -11, left; }
          TriedCellParts(m.env, m.mapInfo[id].service);
          if TriedBucket(m.env, m.mapInfo[id].service) != n { return -17, left; }
          if Position(m.env, false, n, m.mapInfo[id].service) != i { return -18, left; }
          left := left - {id};
        }
        i := i + 1;
      }
      TriedScanRow(m.env, m.mapInfo, cells, n, left);
      n := n + 1;
    }
    TriedScanRow(m.env, m.mapInfo, cells, n, left);
    code := 0;
  }

  lemma TriedCellParts(k: Env, s: Service)
    ensures TriedCell(k, s) == Cell(TriedBucket(k, s), Position(k, false, TriedBucket(k, s), s))
  {
  }

  lemma GridBounded(a: array2<int>)
    ensures forall c :: c in Grid(a) ==> c.bucket < a.Length0 && c.pos < a.Length1
  {
  }

  // ----- the new table

  ghost function CellsSeen(cells: Cells, id: int, n: nat, i: nat): set<Cell> {
    set c | c in cells && cells[c] == id && Before(c, n, i)
  }

  ghost function Seen(cells: Cells, id: int, n: nat, i: nat): nat {
    |CellsSeen(cells, id, n, i)|
  }

  lemma SeenStep(cells: Cells, id: int, n: nat, i: nat)
    ensures var c := Cell(n, i);
            Seen(cells, id, n, i + 1) == Seen(cells, id, n, i) + if c in cells && cells[c] == id then 1 else 0
    ensures Seen(cells, id, n, i) <= |CellsOf(cells, id)|
  {
    var c := Cell(n, i);
    forall d: Cell ensures d == c || (Before(d, n, i) <==> Before(d, n, i + 1)) {}
    if c in cells && cells[c] == id {
      assert CellsSeen(cells, id, n, i + 1) == CellsSeen(cells, id, n, i) + {c};
    } else {
      assert CellsSeen(cells, id, n, i + 1) == CellsSeen(cells, id, n, i);
    }
    SubsetSize(CellsSeen(cells, id, n, i), CellsOf(cells, id));
  }

  /** What the scan of the new table does to the remaining counts at one occupied cell. */
  function CountDown(counts: map<int, int>, id: int): map<int, int>
    requires id in counts
  {
    if counts[id] - 1 == 0 then counts - {id} else counts[id := counts[id] - 1]
  }

  /** What the scan of the new table has established: the cells visited are right, and the counts left over are the
      references not found yet. */
  ghost predicate NewScanned(k: Env, info: map<int, Info>, cells: Cells, n: nat, i: nat, left: map<int, int>) {
    && (forall c :: c in cells && Before(c, n, i) ==>
          cells[c] in info && !info[cells[c]].inTried && c == NewCell(k, info[cells[c]].service, c.bucket))
    && (forall id :: id in info && !info[id].inTried ==> Seen(cells, id, n, i) <= info[id].refCount)
    && (forall id :: id in left <==> id in info && !info[id].inTried && Seen(cells, id, n, i) < info[id].refCount)
    && (forall id :: id in left ==> left[id] == info[id].refCount - Seen(cells, id, n, i))
  }

  /** Every untried address has as many cells as it counts. */
  ghost predicate CountsMatch(info: map<int, Info>, cells: Cells) {
    forall id :: id in info && !info[id].inTried ==> info[id].refCount == |CellsOf(cells, id)|
  }

  /** One occupied cell: it is right exactly if the scan's two tests pass. */
  lemma NewScanStep(k: Env, info: map<int, Info>, cells: Cells, n: nat, i: nat, left: map<int, int>)
    requires NewScanned(k, info, cells, n, i, left)
    ensures var c := Cell(n, i);
            && (c !in cells ==> NewScanned(k, info, cells, n, i + 1, left))
            && (c in cells && cells[c] in left && cells[c] in info && c == NewCell(k, info[cells[c]].service, n) ==>
                  NewScanned(k, info, cells, n, i + 1, CountDown(left, cells[c])))
            && (c in cells && NewCellsOk(k, info, cells) && CountsMatch(info, cells) ==>
                  cells[c] in left && cells[c] in info && c == NewCell(k, info[cells[c]].service, n))
  {
    hide NewCell, Seen;
    var c := Cell(n, i);
    forall d: Cell ensures d == c || (Before(d, n, i) <==> Before(d, n, i + 1)) {}
    forall id ensures Seen(cells, id, n, i + 1) == Seen(cells, id, n, i) + if c in cells && cells[c] == id then 1 else 0 {
      SeenStep(cells, id, n, i);
    }
    if c in cells {
      SeenStep(cells, cells[c], n, i + 1);
    }
  }

  lemma NewScanRow(k: Env, info: map<int, Info>, cells: Cells, n: nat, left: map<int, int>)
    requires forall c :: c in cells ==> c.bucket < NEW_BUCKET_COUNT && c.pos < BUCKET_SIZE
    ensures NewScanned(k, info, cells, n, BUCKET_SIZE, left) ==> NewScanned(k, info, cells, n + 1, 0, left)
  {
    hide NewCell;
    forall id ensures CellsSeen(cells, id, n, BUCKET_SIZE) == CellsSeen(cells, id, n + 1, 0) {}
  }

  lemma NewScanStart(k: Env, info: map<int, Info>, cells: Cells)
    requires forall id :: id in info && !info[id].inTried ==> info[id].refCount > 0
    ensures NewScanned(k, info, cells, 0, 0, NewRefs(info, info.Keys))
  {
    forall id ensures CellsSeen(cells, id, 0, 0) == {} {}
  }

  lemma NewScanEnd(k: Env, info: map<int, Info>, cells: Cells, left: map<int, int>)
    requires forall c :: c in cells ==> c.bucket < NEW_BUCKET_COUNT && c.pos < BUCKET_SIZE
    requires NewScanned(k, info, cells, NEW_BUCKET_COUNT, 0, left)
    ensures left == map[] <==> NewCellsOk(k, info, cells) && CountsMatch(info, cells)
  {
    hide NewCell;
    forall id ensures CellsSeen(cells, id, NEW_BUCKET_COUNT, 0) == CellsOf(cells, id) {}
    if left == map[] {
      forall id | id in info && !info[id].inTried ensures info[id].refCount == |CellsOf(cells, id)| { assert id !in left; }
    } else {
      HasMember(left.Keys);
    }
  }

  /** The scan over the new table. */
  method CheckNew(m: AddrMan, refs: map<int, int>) returns (code: int, left: map<int, int>)
    requires m.Shaped() && refs == NewRefs(m.mapInfo, m.mapInfo.Keys)
    requires forall id :: id in m.mapInfo && !m.mapInfo[id].inTried ==> m.mapInfo[id].refCount > 0
    ensures code == 0 && left == map[] <==>
            NewCellsOk(m.env, m.mapInfo, Grid(m.vvNew)) && CountsMatch(m.mapInfo, Grid(m.vvNew))
  {
    hide Grid, NewScanned, NewCellsOk, CountsMatch;
    ghost var cells := Grid(m.vvNew);
    GridBounded(m.vvNew);
    left := refs;
    NewScanStart(m.env, m.mapInfo, cells);
    var n: nat := 0;
    while n < NEW_BUCKET_COUNT
      invariant n <= NEW_BUCKET_COUNT && left.Keys <= m.mapInfo.Keys
      invariant NewScanned(m.env, m.mapInfo, cells, n, 0, left)
    {
      var i: nat := 0;
      while i < BUCKET_SIZE
        invariant i <= BUCKET_SIZE && left.Keys <= m.mapInfo.Keys
        invariant NewScanned(m.env, m.mapInfo, cells, n, i, left)
      {
        GridAt(m.vvNew, Cell(n, i));
        NewScanStep(m.env, m.mapInfo, cells, n, i, left);
        var id := m.vvNew[n, i];
        if id != -1 {
          if id !in left { return -12, left; }
          if Position(m.env, true, n, m.mapInfo[id].service) != i { return -19, left; }
          left := CountDown(left, id);
        }
        i := i + 1;
      }
      NewScanRow(m.env, m.mapInfo, cells, n, left);
      n := n + 1;
    }
    NewScanEnd(m.env, m.mapInfo, cells, left);
    code := 0;
  }

  // ----- the whole check

  /** What the stages of the check establish is what is accepted. */
  lemma AcceptedIff(k: Env, s: State)
    ensures Accepted(k, s) <==>
            && |s.random| == s.nTried + s.nNew && RecordsOk(s)
            && |TriedIds(s.info)| == s.nTried && |NewIds(s.info)| == s.nNew
            && TriedOk(k, s.info, s.triedCells) && NewCellsOk(k, s.info, s.newCells) && CountsMatch(s.info, s.newCells)
            && k.key != 0
  {
    hide TriedOk;
    Partition(s.info);
    if Accepted(k, s) {
      RandomSize(s.info, s.random);
      RecordsPass(k, s);
    }
    if |s.random| == |s.info| && RecordsOk(s) {
      OrderIsInverse(s);
      if NewCellsOk(k, s.info, s.newCells) && CountsMatch(s.info, s.newCells) { AllRefsOk(k, s); }
      RecordFacts(s);
    }
  }

  lemma RecordFacts(s: State)
    requires RecordsOk(s)
    ensures Indexed(s.info, s.addr) && Referenced(s.info, {}) && Timed(s.info)
    ensures forall id :: id in s.info ==> s.info[id].refCount <= NEW_BUCKETS_PER_ADDRESS
    ensures forall id :: id in s.info && s.info[id].inTried ==> s.info[id].refCount == 0
  {
    forall n | n in s.info ensures RecordCode(s.info[n], s.addr, s.random, n) == 0 {}
  }

  lemma AllRefsOk(k: Env, s: State)
    requires RecordsOk(s) && NewCellsOk(k, s.info, s.newCells) && CountsMatch(s.info, s.newCells)
    ensures RefsOk(s.info, s.newCells)
  {
    RecordFacts(s);
    forall id | id in s.info ensures s.info[id].refCount == |CellsOf(s.newCells, id)| <= NEW_BUCKETS_PER_ADDRESS {
      if s.info[id].inTried { NoCells(s.newCells, id); }
    }
  }

  /** The states that the operations keep. */
  ghost predicate Consistent(m: AddrMan)
    reads m, m.vvNew, m.vvTried
  {
    m.Shaped() && Inv(m.env, m.Tables()) && Timed(m.mapInfo) && m.env.key != 0
  }

  /** Check_ returns zero exactly on the accepted states, which include the consistent ones and so, by
      AddrRuns.RunKeeps, every state that a run reaches. */
  method Check(m: AddrMan) returns (code: int)
    requires m.Shaped()
    ensures code == 0 <==> Accepted(m.env, m.Tables())
    ensures Consistent(m) ==> code == 0
  {
    hide Grid, Accepted, RecordsOk, TriedOk, NewCellsOk, CountsMatch, Inv, Timed;
    if Consistent(m) { ConsistentAccepted(m.env, m.Tables()); }
    AcceptedIff(m.env, m.Tables());
    if |m.vRandom| != m.nTried + m.nNew { return -7; }
    var setTried, mapNew;
    code, setTried, mapNew := CheckRecords(m);
    if code != 0 { return; }
    RecordFacts(m.Tables());
    NewRefsSize(m.mapInfo);
    assert setTried == TriedIds(m.mapInfo);
    if |setTried| != m.nTried { return -9; }
    if |mapNew| != m.nNew { return -10; }
    code, setTried := CheckTried(m, setTried);
    if code != 0 { return; }
    code, mapNew := CheckNew(m, mapNew);
    if code != 0 { return; }
    if |setTried| != 0 { return -13; }
    if |mapNew| != 0 { return -15; }
    if m.env.key == 0 { return -16; }
    return 0;
  }

  lemma NewRefsSize(info: map<int, Info>)
    ensures |NewRefs(info, info.Keys)| == |NewIds(info)|
  {
    assert NewRefs(info, info.Keys).Keys == NewIds(info);
  }
}
