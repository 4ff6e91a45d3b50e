/** Moving an address between the new and the tried tables. */
module AddrMoves {
  import opened AddrTable
  import opened AddrTableLemmas

  // ----- giving an address one more new cell

  function AddRef(s: State, id: int, c: Cell): State
    requires id in s.info
  {
    s.(info := s.info[id := s.info[id].(refCount := s.info[id].refCount + 1)], newCells := s.newCells[c := id])
  }

  ghost predicate CanRef(k: Env, s: State, id: int, c: Cell) {
    && id in s.info && !s.info[id].inTried && s.info[id].refCount < NEW_BUCKETS_PER_ADDRESS
    && c !in s.newCells && c.bucket < NEW_BUCKET_COUNT && c == NewCell(k, s.info[id].service, c.bucket)
  }

  lemma AddRefRefs(k: Env, s: State, id: int, c: Cell)
    requires RefsOk(s.info, s.newCells) && CanRef(k, s, id, c)
    ensures RefsOk(AddRef(s, id, c).info, AddRef(s, id, c).newCells)
  {
    var t := AddRef(s, id, c);
    CellAdded(s.newCells, c, id);
    forall x | x in t.info ensures t.info[x].refCount == |CellsOf(t.newCells, x)| <= NEW_BUCKETS_PER_ADDRESS {
      assert s.info[x].refCount == |CellsOf(s.newCells, x)|;
    }
  }

  lemma AddRefNewCells(k: Env, s: State, id: int, c: Cell)
    requires NewCellsOk(k, s.info, s.newCells) && CanRef(k, s, id, c)
    ensures NewCellsOk(k, AddRef(s, id, c).info, AddRef(s, id, c).newCells)
  {
    var t := AddRef(s, id, c);
    forall d | d in t.newCells
      ensures var x := t.newCells[d];
              x in t.info && !t.info[x].inTried && d.bucket < NEW_BUCKET_COUNT && d == NewCell(k, t.info[x].service, d.bucket) {
      if d != c {
        var x := s.newCells[d];
        assert x in s.info;
      }
    }
  }

  lemma AddRefKeeps(k: Env, s: State, id: int, c: Cell)
    requires Linked(k, s) && CanRef(k, s, id, c)
    ensures Linked(k, AddRef(s, id, c))
    ensures forall d :: Counted(s, d) ==> Counted(AddRef(s, id, c), d)
    ensures s.info[id].refCount >= 0
  {
    hide Placed;
    AddRefPlaced(k, s, id, c);
    CarryAddrs(s.info, AddRef(s, id, c).info, s.addr);
  }

  lemma AddRefPlaced(k: Env, s: State, id: int, c: Cell)
    requires Placed(k, s) && CanRef(k, s, id, c)
    ensures Placed(k, AddRef(s, id, c))
    ensures forall d :: Counted(s, d) ==> Counted(AddRef(s, id, c), d)
    ensures s.info[id].refCount >= 0
  {
    var t := AddRef(s, id, c);
    assert t.info.Keys == s.info.Keys;
    AddRefRefs(k, s, id, c);
    AddRefNewCells(k, s, id, c);
    CountSame(s.info, id, t.info[id]);
    CarryTried(k, s.info, t.info, s.triedCells);
    RandomTouched(s.info, s.random, id, t.info[id]);
    assert s.info[id].refCount == |CellsOf(s.newCells, id)|;
    hide NewCellsOk, TriedOk, RefsOk, RandomInverse;
  }

  // ----- taking an address out of the new table

  /** The cells of an address found by probing its hashed position in the buckets below b. */
  function Held(k: Env, cells: Cells, id: int, service: Service, b: nat): set<Cell> {
    set c | c in cells && cells[c] == id && c.bucket < b && c == NewCell(k, service, c.bucket)
  }

  function Probed(k: Env, s: State, id: int, b: nat): State
    requires id in s.info
  {
    var held := Held(k, s.newCells, id, s.info[id].service, b);
    s.(info := s.info[id := s.info[id].(refCount := s.info[id].refCount - |held|)], newCells := s.newCells - held)
  }

  /** Probing one more bucket. */
  lemma HeldStep(k: Env, cells: Cells, id: int, service: Service, b: nat)
    ensures var c := NewCell(k, service, b);
            && c !in Held(k, cells, id, service, b)
            && Held(k, cells, id, service, b + 1) ==
                 Held(k, cells, id, service, b) + (if c in cells && cells[c] == id then {c} else {})
  {
  }

  function Removed(k: Env, s: State, id: int): State
    requires id in s.info
  {
    Probed(k, s, id, NEW_BUCKET_COUNT).(nNew := s.nNew - 1)
  }

  lemma HeldIsAll(k: Env, s: State, id: int)
    requires NewCellsOk(k, s.info, s.newCells) && id in s.info
    ensures Held(k, s.newCells, id, s.info[id].service, NEW_BUCKET_COUNT) == CellsOf(s.newCells, id)
  {
  }

  lemma RemovedRefs(k: Env, s: State, id: int)
    requires NewCellsOk(k, s.info, s.newCells) && RefsOk(s.info, s.newCells) && id in s.info
    ensures Removed(k, s, id).info[id].refCount == 0
    ensures RefsOk(Removed(k, s, id).info, Removed(k, s, id).newCells)
  {
    HeldIsAll(k, s, id);
    var t := Removed(k, s, id);
    assert s.info[id].refCount == |CellsOf(s.newCells, id)|;
    NoCells(t.newCells, id);
    forall x | x in t.info ensures t.info[x].refCount == |CellsOf(t.newCells, x)| <= NEW_BUCKETS_PER_ADDRESS {
      assert s.info[x].refCount == |CellsOf(s.newCells, x)|;
      if x != id { assert CellsOf(t.newCells, x) == CellsOf(s.newCells, x); }
    }
  }

  /** Probing every bucket at the hashed position finds all cells of the address, so its count reaches zero. */
  lemma RemovedKeeps(k: Env, s: State, id: int)
    requires Linked(k, s) && id in s.info
    ensures Linked(k, Removed(k, s, id)) && Removed(k, s, id).info[id].refCount == 0
    ensures forall d :: Counted(s, d) ==> Counted(Removed(k, s, id), d - 1)
  {
    var t := Removed(k, s, id);
    assert t.info.Keys == s.info.Keys;
    RemovedRefs(k, s, id);
    CountSame(s.info, id, t.info[id]);
    CarryNewCells(k, s.info, t.info, t.newCells);
    CarryTried(k, s.info, t.info, s.triedCells);
    CarryAddrs(s.info, t.info, s.addr);
    RandomTouched(s.info, s.random, id, t.info[id]);
    hide NewCellsOk, TriedOk, AddrsInverse, RefsOk, RandomInverse, Held;
  }

  // ----- evicting a tried address

  /** The occupant of a tried cell leaves the tried table. */
  function Evicted(s: State, c: Cell): State
    requires c in s.triedCells && s.triedCells[c] in s.info
  {
    var id := s.triedCells[c];
    s.(info := s.info[id := s.info[id].(inTried := false)], triedCells := s.triedCells - {c}, nTried := s.nTried - 1)
  }

  lemma EvictedTried(k: Env, s: State, c: Cell)
    requires TriedOk(k, s.info, s.triedCells) && NewCellsOk(k, s.info, s.newCells) && c in s.triedCells
    ensures TriedOk(k, Evicted(s, c).info, Evicted(s, c).triedCells)
    ensures NewCellsOk(k, Evicted(s, c).info, s.newCells)
  {
    var id := s.triedCells[c];
    var t := Evicted(s, c);
    assert s.info[id].inTried;
    forall d | d in t.triedCells
      ensures var x := t.triedCells[d]; x in t.info && t.info[x].inTried && d == TriedCell(k, t.info[x].service) {
      var x := s.triedCells[d];
      assert x in s.info;
    }
    forall d | d in s.newCells
      ensures var x := s.newCells[d];
              x in t.info && !t.info[x].inTried && d.bucket < NEW_BUCKET_COUNT && d == NewCell(k, t.info[x].service, d.bucket) {
      var x := s.newCells[d];
      assert x in s.info;
    }
  }

  lemma EvictedKeeps(k: Env, s: State, c: Cell)
    requires Linked(k, s) && c in s.triedCells
    ensures Linked(k, Evicted(s, c)) && Evicted(s, c).info[s.triedCells[c]].refCount == 0
    ensures forall d :: Counted(s, d) ==> Counted(Evicted(s, c), d - 1)
  {
    var id := s.triedCells[c];
    var t := Evicted(s, c);
    assert t.info.Keys == s.info.Keys;
    EvictedTried(k, s, c);
    CountMoved(s.info, id, t.info[id]);
    AddrsTouched(s.info, s.addr, id, t.info[id]);
    CarryRefs(s.info, t.info, s.newCells);
    RandomTouched(s.info, s.random, id, t.info[id]);
    TriedHasNoRefs(k, s, id);
    hide NewCellsOk, TriedOk, AddrsInverse, RefsOk, RandomInverse;
  }

  lemma AddrsTouched(info: map<int, Info>, addr: map<NetAddr, int>, id: int, i: Info)
    requires AddrsInverse(info, addr) && id in info && i.service == info[id].service
    ensures AddrsInverse(info[id := i], addr)
  {
  }

  lemma TriedHasNoRefs(k: Env, s: State, id: int)
    requires NewCellsOk(k, s.info, s.newCells) && RefsOk(s.info, s.newCells) && id in s.info && s.info[id].inTried
    ensures s.info[id].refCount == 0
  {
    NoCells(s.newCells, id);
    assert s.info[id].refCount == |CellsOf(s.newCells, id)|;
    forall c | c in s.newCells ensures s.newCells[c] != id {
      var x := s.newCells[c];
      assert !s.info[x].inTried;
    }
  }

  /** The cell the evicted address returns to. */
  function HomeCell(k: Env, i: Info): Cell {
    NewCell(k, i.service, NewBucket(k, i.service, i.source))
  }

  /** The evicted address is entered into the new table, displacing whatever is there. */
  function Returned(k: Env, s: State, id: int): State
    requires Linked(k, s) && id in s.info && !s.info[id].inTried && s.info[id].refCount == 0
  {
    var c := HomeCell(k, s.info[id]);
    UnreferencedSurvives(k, s, id, c);
    AddRef(ClearNew(k, s, c), id, c).(nNew := ClearNew(k, s, c).nNew + 1)
  }

  /** Clearing any new cell leaves an address without cells alone. */
  lemma UnreferencedSurvives(k: Env, s: State, id: int, c: Cell)
    requires Linked(k, s) && id in s.info && s.info[id].refCount == 0
    ensures c in s.newCells ==> s.newCells[c] != id
    ensures id in ClearNew(k, s, c).info && SameEntry(ClearNew(k, s, c).info[id], s.info[id])
  {
    ClearNewKeeps(k, s, c);
    NoCells(s.newCells, id);
    assert s.info[id].refCount == |CellsOf(s.newCells, id)|;
  }

  lemma ReturnedKeeps(k: Env, s: State, id: int)
    requires Linked(k, s) && id in s.info && !s.info[id].inTried && s.info[id].refCount == 0
    ensures Linked(k, Returned(k, s, id)) && Returned(k, s, id).info[id].refCount == 1
    ensures forall d :: Counted(s, d) ==> Counted(Returned(k, s, id), d + 1)
  {
    var c := HomeCell(k, s.info[id]);
    ClearNewKeeps(k, s, c);
    UnreferencedSurvives(k, s, id, c);
    var t := ClearNew(k, s, c);
    assert CanRef(k, t, id, c);
    AddRefKeeps(k, t, id, c);
    hide NewCellsOk, TriedOk, AddrsInverse, RefsOk, RandomInverse, ClearNew;
  }

  // ----- entering the tried table

  function Entered(k: Env, s: State, id: int): State
    requires id in s.info
  {
    s.(info := s.info[id := s.info[id].(inTried := true)],
       triedCells := s.triedCells[TriedCell(k, s.info[id].service) := id], nTried := s.nTried + 1)
  }

  lemma EnteredTried(k: Env, s: State, id: int)
    requires TriedOk(k, s.info, s.triedCells) && id in s.info && !s.info[id].inTried
    requires TriedCell(k, s.info[id].service) !in s.triedCells
    ensures TriedOk(k, Entered(k, s, id).info, Entered(k, s, id).triedCells)
  {
    var t := Entered(k, s, id);
    forall d | d in t.triedCells
      ensures var x := t.triedCells[d]; x in t.info && t.info[x].inTried && d == TriedCell(k, t.info[x].service) {
      if d in s.triedCells {
        var x := s.triedCells[d];
        assert x in s.info && s.info[x].inTried;
      }
    }
  }

  lemma EnteredNewCells(k: Env, s: State, id: int)
    requires NewCellsOk(k, s.info, s.newCells) && RefsOk(s.info, s.newCells) && id in s.info && s.info[id].refCount == 0
    ensures NewCellsOk(k, Entered(k, s, id).info, s.newCells)
  {
    var t := Entered(k, s, id);
    NoCells(s.newCells, id);
    assert s.info[id].refCount == |CellsOf(s.newCells, id)|;
    forall d | d in s.newCells
      ensures var x := s.newCells[d];
              x in t.info && !t.info[x].inTried && d.bucket < NEW_BUCKET_COUNT && d == NewCell(k, t.info[x].service, d.bucket) {
      var x := s.newCells[d];
      assert x in s.info && x != id;
    }
  }

  lemma EnteredKeeps(k: Env, s: State, id: int)
    requires Linked(k, s) && id in s.info && !s.info[id].inTried && s.info[id].refCount == 0
    requires TriedCell(k, s.info[id].service) !in s.triedCells
    ensures Linked(k, Entered(k, s, id))
    ensures forall d :: Counted(s, d) ==> Counted(Entered(k, s, id), d + 1)
  {
    hide Placed, TriedCell;
    EnteredPlaced(k, s, id);
    AddrsTouched(s.info, s.addr, id, Entered(k, s, id).info[id]);
  }

  lemma EnteredPlaced(k: Env, s: State, id: int)
    requires Placed(k, s) && id in s.info && !s.info[id].inTried && s.info[id].refCount == 0
    requires TriedCell(k, s.info[id].service) !in s.triedCells
    ensures Placed(k, Entered(k, s, id))
    ensures forall d :: Counted(s, d) ==> Counted(Entered(k, s, id), d + 1)
  {
    var t := Entered(k, s, id);
    assert t.info.Keys == s.info.Keys;
    EnteredTried(k, s, id);
    EnteredNewCells(k, s, id);
    CountMoved(s.info, id, t.info[id]);
    CarryRefs(s.info, t.info, s.newCells);
    RandomTouched(s.info, s.random, id, t.info[id]);
    hide NewCellsOk, TriedOk, RefsOk, RandomInverse;
  }
}
