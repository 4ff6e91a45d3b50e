/** What the elementary table operations keep. */
module AddrTableLemmas {
  import opened AddrTable

  // ----- counting

  lemma CellAdded(cells: Cells, c: Cell, id: int)
    requires c !in cells
    ensures |CellsOf(cells[c := id], id)| == |CellsOf(cells, id)| + 1
    ensures forall x :: x != id ==> CellsOf(cells[c := id], x) == CellsOf(cells, x)
  {
    assert CellsOf(cells[c := id], id) == CellsOf(cells, id) + {c};
    forall x | x != id ensures CellsOf(cells[c := id], x) == CellsOf(cells, x) {}
  }

  lemma CellRemoved(cells: Cells, c: Cell)
    requires c in cells
    ensures |CellsOf(cells - {c}, cells[c])| == |CellsOf(cells, cells[c])| - 1
    ensures forall x :: x != cells[c] ==> CellsOf(cells - {c}, x) == CellsOf(cells, x)
  {
    assert CellsOf(cells - {c}, cells[c]) == CellsOf(cells, cells[c]) - {c};
    forall x | x != cells[c] ensures CellsOf(cells - {c}, x) == CellsOf(cells, x) {}
  }

  lemma HasMember(ids: set<int>)
    requires ids != {}
    ensures exists x :: x in ids
  {
    assert (forall x: int :: x !in ids) ==> ids == {};
  }

  lemma NoCells(cells: Cells, id: int)
    ensures |CellsOf(cells, id)| == 0 <==> forall c :: c in cells ==> cells[c] != id
  {
    if |CellsOf(cells, id)| == 0 {
      forall c | c in cells ensures cells[c] != id { assert c !in CellsOf(cells, id); }
    } else {
      var c :| c in CellsOf(cells, id);
    }
  }

  /** Same address record apart from the place in the random order. */
  predicate SameEntry(i: Info, j: Info) {
    i == j.(randomPos := i.randomPos)
  }

  /** The records afterwards are those before, without `gone`, apart from the places in the random order. */
  ghost predicate SameExcept(info: map<int, Info>, after: map<int, Info>, gone: set<int>) {
    && (forall id :: id in after <==> id in info && id !in gone)
    && (forall id :: id in after ==> SameEntry(after[id], info[id]))
  }

  lemma SameIds(info: map<int, Info>, after: map<int, Info>, gone: set<int>)
    requires SameExcept(info, after, gone)
    ensures NewIds(after) == NewIds(info) - gone
    ensures TriedIds(after) == TriedIds(info) - gone
  {
    forall id ensures id in NewIds(after) <==> id in NewIds(info) - gone {
      if id in after { assert SameEntry(after[id], info[id]); }
    }
    forall id ensures id in TriedIds(after) <==> id in TriedIds(info) - gone {
      if id in after { assert SameEntry(after[id], info[id]); }
    }
  }

  lemma CountInserted(info: map<int, Info>, id: int, i: Info)
    requires id !in info && !i.inTried
    ensures |NewIds(info[id := i])| == |NewIds(info)| + 1
    ensures TriedIds(info[id := i]) == TriedIds(info)
  {
    assert NewIds(info[id := i]) == NewIds(info) + {id};
  }

  lemma CountSame(info: map<int, Info>, id: int, i: Info)
    requires id in info && i.inTried == info[id].inTried
    ensures NewIds(info[id := i]) == NewIds(info)
    ensures TriedIds(info[id := i]) == TriedIds(info)
  {
  }

  lemma CountMoved(info: map<int, Info>, id: int, i: Info)
    requires id in info && i.inTried != info[id].inTried
    ensures |NewIds(info[id := i])| == |NewIds(info)| + (if i.inTried then -1 else 1)
    ensures |TriedIds(info[id := i])| == |TriedIds(info)| + (if i.inTried then 1 else -1)
  {
    if i.inTried {
      assert NewIds(info[id := i]) == NewIds(info) - {id};
      assert TriedIds(info[id := i]) == TriedIds(info) + {id};
    } else {
      assert NewIds(info[id := i]) == NewIds(info) + {id};
      assert TriedIds(info[id := i]) == TriedIds(info) - {id};
    }
  }

  // ----- links survive any change that keeps what they depend on

  /** Every record afterwards was there before, for the same service and in the same table. */
  ghost predicate SameIdentity(info: map<int, Info>, after: map<int, Info>) {
    forall id :: id in after ==>
      id in info && after[id].service == info[id].service && after[id].inTried == info[id].inTried
  }

  lemma CarryNewCells(k: Env, info: map<int, Info>, after: map<int, Info>, cells: Cells)
    requires NewCellsOk(k, info, cells) && SameIdentity(info, after)
    requires forall c :: c in cells ==> cells[c] in after
    ensures NewCellsOk(k, after, cells)
  {
    forall c | c in cells
      ensures !after[cells[c]].inTried && c.bucket < NEW_BUCKET_COUNT && c == NewCell(k, after[cells[c]].service, c.bucket) {
      var id := cells[c];
      assert id in after;
      assert after[id].service == info[id].service;
    }
  }

  lemma CarryTried(k: Env, info: map<int, Info>, after: map<int, Info>, cells: Cells)
    requires TriedOk(k, info, cells) && SameIdentity(info, after)
    requires forall id :: id in info && info[id].inTried ==> id in after
    ensures TriedOk(k, after, cells)
  {
    forall c | c in cells
      ensures cells[c] in after && after[cells[c]].inTried && c == TriedCell(k, after[cells[c]].service) {
      var id := cells[c];
      assert id in after;
      assert after[id].service == info[id].service;
    }
  }

  lemma CarryAddrs(info: map<int, Info>, after: map<int, Info>, addr: map<NetAddr, int>)
    requires AddrsInverse(info, addr) && SameIdentity(info, after) && after.Keys == info.Keys
    ensures AddrsInverse(after, addr)
  {
  }

  lemma CarryRefs(info: map<int, Info>, after: map<int, Info>, cells: Cells)
    requires RefsOk(info, cells)
    requires forall id :: id in after ==> id in info && after[id].refCount == info[id].refCount
    ensures RefsOk(after, cells)
  {
    forall id | id in after ensures after[id].refCount == |CellsOf(cells, id)| <= NEW_BUCKETS_PER_ADDRESS {
      assert info[id].refCount == |CellsOf(cells, id)|;
    }
  }

  // ----- changing one record

  lemma TouchPlaced(k: Env, s: State, id: int, i: Info)
    requires Placed(k, s) && id in s.info
    requires i.service == s.info[id].service && i.refCount == s.info[id].refCount
          && i.inTried == s.info[id].inTried && i.randomPos == s.info[id].randomPos
    ensures Placed(k, SetInfo(s, id, i))
    ensures forall d :: Counted(s, d) ==> Counted(SetInfo(s, id, i), d)
  {
    var after := s.info[id := i];
    assert after.Keys == s.info.Keys;
    CountSame(s.info, id, i);
    CarryNewCells(k, s.info, after, s.newCells);
    CarryTried(k, s.info, after, s.triedCells);
    CarryRefs(s.info, after, s.newCells);
    RandomTouched(s.info, s.random, id, i);
    hide NewCellsOk, TriedOk, RefsOk, RandomInverse;
  }

  /** Statistics may change at will; the links do not notice. */
  lemma TouchKeeps(k: Env, s: State, id: int, i: Info)
    requires Linked(k, s) && id in s.info
    requires i.service == s.info[id].service && i.refCount == s.info[id].refCount
          && i.inTried == s.info[id].inTried && i.randomPos == s.info[id].randomPos
    ensures Linked(k, SetInfo(s, id, i))
    ensures forall d :: Counted(s, d) ==> Counted(SetInfo(s, id, i), d)
  {
    hide Placed;
    TouchPlaced(k, s, id, i);
    CarryAddrs(s.info, s.info[id := i], s.addr);
  }

  lemma TouchKeepsOthers(k: Env, s: State, id: int, i: Info)
    requires id in s.info && i.service == s.info[id].service && i.refCount == s.info[id].refCount
          && i.inTried == s.info[id].inTried
    ensures forall loose :: Referenced(s.info, loose) ==> Referenced(SetInfo(s, id, i).info, loose)
    ensures CollisionsOk(k, s) ==> CollisionsOk(k, SetInfo(s, id, i))
  {
  }

  // ----- creating

  lemma CreateAddrs(s: State, a: Address, source: NetAddr)
    requires AddrsInverse(s.info, s.addr) && s.idCount !in s.info && a.service.addr !in s.addr
    ensures AddrsInverse(Create(s, a, source).info, Create(s, a, source).addr)
  {
  }

  lemma CreateRandom(s: State, a: Address, source: NetAddr)
    requires RandomInverse(s.info, s.random) && s.idCount !in s.info
    ensures RandomInverse(Create(s, a, source).info, Create(s, a, source).random)
  {
    var t := Create(s, a, source);
    assert t.random[|s.random|] == s.idCount;
  }

  lemma CreateCells(k: Env, s: State, a: Address, source: NetAddr)
    requires NewCellsOk(k, s.info, s.newCells) && TriedOk(k, s.info, s.triedCells) && s.idCount !in s.info
    ensures NewCellsOk(k, Create(s, a, source).info, s.newCells)
    ensures TriedOk(k, Create(s, a, source).info, s.triedCells)
  {
  }

  lemma CreateRefs(k: Env, s: State, a: Address, source: NetAddr)
    requires NewCellsOk(k, s.info, s.newCells) && RefsOk(s.info, s.newCells) && s.idCount !in s.info
    ensures RefsOk(Create(s, a, source).info, s.newCells)
  {
    var t := Create(s, a, source);
    NoCells(s.newCells, s.idCount);
    forall id | id in t.info ensures t.info[id].refCount == |CellsOf(s.newCells, id)| <= NEW_BUCKETS_PER_ADDRESS {
      if id != s.idCount { assert s.info[id].refCount == |CellsOf(s.newCells, id)|; }
    }
  }

  lemma CreatePlaced(k: Env, s: State, a: Address, source: NetAddr)
    requires Placed(k, s) && 0 <= s.idCount
    ensures s.idCount !in s.info
    ensures Placed(k, Create(s, a, source))
    ensures forall d :: Counted(s, d) ==> Counted(Create(s, a, source), d - 1)
  {
    CreateRandom(s, a, source);
    CreateCells(k, s, a, source);
    CreateRefs(k, s, a, source);
    CountInserted(s.info, s.idCount, Create(s, a, source).info[s.idCount]);
    hide NewCellsOk, TriedOk, RefsOk, RandomInverse;
  }

  lemma CreateKeeps(k: Env, s: State, a: Address, source: NetAddr)
    requires Linked(k, s) && a.service.addr !in s.addr && 0 <= s.idCount
    ensures s.idCount !in s.info
    ensures Linked(k, Create(s, a, source))
    ensures forall d :: Counted(s, d) ==> Counted(Create(s, a, source), d - 1)
  {
    hide Placed;
    CreatePlaced(k, s, a, source);
    CreateAddrs(s, a, source);
  }

  // ----- the random order

  lemma SwapRandom(s: State, i: nat, j: nat)
    requires RandomInverse(s.info, s.random) && i < |s.random| && j < |s.random|
    ensures RandomInverse(Swap(s, i, j).info, Swap(s, i, j).random)
    ensures SameExcept(s.info, Swap(s, i, j).info, {})
    ensures |Swap(s, i, j).random| == |s.random|
  {
    if i != j { assert s.random[i] != s.random[j]; }
  }

  /** The links that do not involve the random order survive changes of places in it, and the loss of
      records nothing refers to. */
  lemma SameExceptKeeps(k: Env, s: State, after: map<int, Info>, gone: set<int>)
    requires Placed(k, s) && SameExcept(s.info, after, gone)
    requires forall id :: id in gone && id in s.info ==> !s.info[id].inTried && s.info[id].refCount == 0
    ensures NewCellsOk(k, after, s.newCells) && TriedOk(k, after, s.triedCells) && RefsOk(after, s.newCells)
    ensures IdsOk(after, s.idCount) && SameIdentity(s.info, after)
  {
    forall id | id in after
      ensures id in s.info && after[id].service == s.info[id].service && after[id].inTried == s.info[id].inTried
           && after[id].refCount == s.info[id].refCount {
      assert SameEntry(after[id], s.info[id]);
    }
    forall c | c in s.newCells ensures s.newCells[c] in after {
      NoCells(s.newCells, s.newCells[c]);
      assert s.info[s.newCells[c]].refCount == |CellsOf(s.newCells, s.newCells[c])|;
    }
    CarryNewCells(k, s.info, after, s.newCells);
    CarryTried(k, s.info, after, s.triedCells);
    CarryRefs(s.info, after, s.newCells);
  }

  lemma SwapKeeps(k: Env, s: State, i: nat, j: nat)
    requires Linked(k, s) && i < |s.random| && j < |s.random|
    ensures Linked(k, Swap(s, i, j))
    ensures SameExcept(s.info, Swap(s, i, j).info, {})
    ensures |Swap(s, i, j).random| == |s.random| && Swap(s, i, j).random[i] in Swap(s, i, j).info
    ensures forall d :: Counted(s, d) ==> Counted(Swap(s, i, j), d)
  {
    var t := Swap(s, i, j);
    SwapRandom(s, i, j);
    assert t.random[i] in t.info && t.info.Keys == s.info.Keys;
    hide NewCellsOk, TriedOk, AddrsInverse, RefsOk, RandomInverse, SameExcept, SameIdentity;
    SameExceptKeeps(k, s, t.info, {});
    SameIds(s.info, t.info, {});
    CarryAddrs(s.info, t.info, s.addr);
  }

  // ----- deleting

  lemma DeleteRandom(s: State, id: int)
    requires RandomInverse(s.info, s.random) && id in s.info
    ensures RandomInverse(Delete(s, id).info, Delete(s, id).random)
    ensures SameExcept(s.info, Delete(s, id).info, {id})
  {
    var p := s.info[id].randomPos;
    var last := |s.random| - 1;
    SwapRandom(s, p, last);
    var t := Swap(s, p, last);
    assert t.random[last] == id && t.info[id].randomPos == last;
    DropLast(t.info, t.random);
    SameExceptDrop(s.info, t.info, id);
    hide RandomInverse, SameExcept, Swap;
    assert Delete(s, id).info == t.info - {id};
    assert Delete(s, id).random == t.random[..last];
  }

  lemma DropLast(info: map<int, Info>, random: seq<int>)
    requires RandomInverse(info, random) && |random| > 0
    ensures RandomInverse(info - {random[|random| - 1]}, random[..|random| - 1])
  {
  }

  lemma SameExceptDrop(info: map<int, Info>, after: map<int, Info>, id: int)
    requires SameExcept(info, after, {})
    ensures SameExcept(info, after - {id}, {id})
  {
    forall x | x in after - {id} ensures SameEntry((after - {id})[x], info[x]) {
      assert SameEntry(after[x], info[x]);
    }
  }

  lemma DeleteAddrs(s: State, id: int)
    requires AddrsInverse(s.info, s.addr) && RandomInverse(s.info, s.random) && id in s.info
    requires SameIdentity(s.info, Delete(s, id).info) && SameExcept(s.info, Delete(s, id).info, {id})
    ensures AddrsInverse(Delete(s, id).info, Delete(s, id).addr)
  {
  }

  lemma DeleteFrame(s: State, id: int)
    requires RandomInverse(s.info, s.random) && id in s.info
    ensures var t := Delete(s, id);
            && t.triedCells == s.triedCells && t.newCells == s.newCells && t.nTried == s.nTried && t.nNew == s.nNew - 1
            && t.idCount == s.idCount && t.collisions == s.collisions && t.lastGood == s.lastGood
  {
  }

  lemma DeletePlaced(k: Env, s: State, id: int)
    requires Placed(k, s) && id in s.info && !s.info[id].inTried && s.info[id].refCount == 0
    ensures Placed(k, Delete(s, id))
    ensures SameExcept(s.info, Delete(s, id).info, {id}) && SameIdentity(s.info, Delete(s, id).info)
    ensures forall d :: Counted(s, d) ==> Counted(Delete(s, id), d)
  {
    hide NewCellsOk, TriedOk, RefsOk, RandomInverse, SameExcept, SameIdentity, Delete;
    var t := Delete(s, id);
    DeleteFrame(s, id);
    DeleteRandom(s, id);
    SameExceptKeeps(k, s, t.info, {id});
    SameIds(s.info, t.info, {id});
    assert id in NewIds(s.info) && id !in TriedIds(s.info);
    assert TriedIds(s.info) - {id} == TriedIds(s.info);
  }

  lemma DeleteKeeps(k: Env, s: State, id: int)
    requires Linked(k, s) && id in s.info && !s.info[id].inTried && s.info[id].refCount == 0
    ensures Linked(k, Delete(s, id))
    ensures SameExcept(s.info, Delete(s, id).info, {id})
    ensures var t := Delete(s, id);
            && t.triedCells == s.triedCells && t.newCells == s.newCells && t.nTried == s.nTried
            && t.idCount == s.idCount && t.collisions == s.collisions && t.lastGood == s.lastGood
    ensures forall d :: Counted(s, d) ==> Counted(Delete(s, id), d)
  {
    assert RandomInverse(s.info, s.random);
    hide Placed, AddrsInverse, RandomInverse, SameExcept, SameIdentity, Delete;
    DeletePlaced(k, s, id);
    DeleteFrame(s, id);
    DeleteAddrs(s, id);
  }

  // ----- emptying a new cell

  /** The step of ClearNew before the address is possibly forgotten. */
  function Unref(s: State, c: Cell): State
    requires c in s.newCells && s.newCells[c] in s.info
  {
    var id := s.newCells[c];
    s.(info := s.info[id := s.info[id].(refCount := s.info[id].refCount - 1)], newCells := s.newCells - {c})
  }

  lemma UnrefRefs(s: State, c: Cell)
    requires c in s.newCells && s.newCells[c] in s.info && RefsOk(s.info, s.newCells)
    ensures s.info[s.newCells[c]].refCount > 0
    ensures RefsOk(Unref(s, c).info, Unref(s, c).newCells)
  {
    var id := s.newCells[c];
    var t := Unref(s, c);
    CellRemoved(s.newCells, c);
    NoCells(s.newCells, id);
    forall x | x in t.info ensures t.info[x].refCount == |CellsOf(t.newCells, x)| <= NEW_BUCKETS_PER_ADDRESS {
      assert s.info[x].refCount == |CellsOf(s.newCells, x)|;
    }
  }

  lemma UnrefKeeps(k: Env, s: State, c: Cell)
    requires Linked(k, s) && c in s.newCells
    ensures s.info[s.newCells[c]].refCount > 0
    ensures Linked(k, Unref(s, c))
    ensures forall d :: Counted(s, d) ==> Counted(Unref(s, c), d)
  {
    var id := s.newCells[c];
    var t := Unref(s, c);
    assert t.info.Keys == s.info.Keys;
    UnrefRefs(s, c);
    CountSame(s.info, id, t.info[id]);
    CarryNewCells(k, s.info, t.info, t.newCells);
    CarryTried(k, s.info, t.info, s.triedCells);
    CarryAddrs(s.info, t.info, s.addr);
    RandomTouched(s.info, s.random, id, t.info[id]);
    hide NewCellsOk, TriedOk, AddrsInverse, RefsOk, RandomInverse;
  }

  /** Every record afterwards was there before, for the same service, with the same connection history,
      and it did not become tried. */
  ghost predicate History(info: map<int, Info>, after: map<int, Info>) {
    forall id :: id in after ==>
      && id in info && after[id].service == info[id].service
      && after[id].lastTry == info[id].lastTry && after[id].lastSuccess == info[id].lastSuccess
      && (after[id].inTried ==> info[id].inTried)
  }

  /** What clearing a new cell may change: the address there loses a reference or its record; all others stay. */
  ghost predicate Cleared(s: State, t: State, c: Cell) {
    && t.newCells == s.newCells - {c} && t.triedCells == s.triedCells
    && t.idCount == s.idCount && t.lastGood == s.lastGood && t.collisions == s.collisions
    && History(s.info, t.info)
    && (forall id :: id in s.info && (c in s.newCells ==> id != s.newCells[c]) ==>
          id in t.info && SameEntry(t.info[id], s.info[id]))
    && (forall id :: id in t.info && c in s.newCells && id == s.newCells[c] ==> t.info[id].refCount > 0)
    && t.nTried == s.nTried
  }

  lemma UnrefCleared(s: State, c: Cell)
    requires c in s.newCells && s.newCells[c] in s.info && s.info[s.newCells[c]].refCount > 1
    ensures Cleared(s, Unref(s, c), c)
  {
  }

  lemma DeletedCleared(s: State, c: Cell, t: State)
    requires c in s.newCells && s.newCells[c] in s.info
    requires SameExcept(Unref(s, c).info, t.info, {s.newCells[c]})
    requires t.newCells == Unref(s, c).newCells && t.triedCells == s.triedCells
          && t.idCount == s.idCount && t.lastGood == s.lastGood && t.collisions == s.collisions && t.nTried == s.nTried
    ensures Cleared(s, t, c)
  {
    var u := Unref(s, c);
    forall id | id in t.info ensures id in s.info && id != s.newCells[c] && SameEntry(t.info[id], s.info[id]) {
      assert SameEntry(t.info[id], u.info[id]);
    }
  }

  /** Clearing a new cell never trips an assertion: the address there has a positive count, and if it is
      deleted it is untried with count zero. */
  lemma ClearNewKeeps(k: Env, s: State, c: Cell)
    requires Linked(k, s)
    ensures Linked(k, ClearNew(k, s, c))
    ensures Cleared(s, ClearNew(k, s, c), c)
    ensures forall d :: Counted(s, d) ==> Counted(ClearNew(k, s, c), d)
  {
    if c in s.newCells {
      UnrefKeeps(k, s, c);
      var id := s.newCells[c];
      var u := Unref(s, c);
      assert RandomInverse(u.info, u.random) && !u.info[id].inTried;
      hide Linked, RefsOk, TriedOk, NewCellsOk, RandomInverse, AddrsInverse, Swap, Cleared, SameExcept;
      if u.info[id].refCount == 0 {
        DeleteKeeps(k, u, id);
        assert ClearNew(k, s, c) == Delete(u, id);
        DeletedCleared(s, c, Delete(u, id));
      } else {
        UnrefCleared(s, c);
      }
    } else {
      assert s.newCells - {c} == s.newCells;
    }
  }

  lemma ClearedReferenced(s: State, t: State, c: Cell, loose: set<int>)
    requires Cleared(s, t, c) && Referenced(s.info, loose)
    ensures Referenced(t.info, loose)
  {
  }
}
