/** The public operations of the address manager and the consistency of every run of them. */
module AddrOps {
  import opened Arithmetic
  import opened AddrTable
  import opened AddrTableLemmas
  import opened AddrMoves

  // ----- what later operations rely on: identities are stable and tried cells stay filled

  /** No identifier ever changes its address, and no tried cell is ever emptied. */
  ghost predicate Stable(s: State, t: State) {
    && s.idCount <= t.idCount
    && (forall id :: id in t.info && id < s.idCount ==> id in s.info && t.info[id].service == s.info[id].service)
    && s.triedCells.Keys <= t.triedCells.Keys
  }

  lemma StableTrans(s: State, t: State, u: State)
    requires Stable(s, t) && Stable(t, u)
    ensures Stable(s, u)
  {
  }

  lemma StableCollisions(k: Env, s: State, t: State)
    requires CollisionsOk(k, s) && Stable(s, t) && t.collisions <= s.collisions
    ensures CollisionsOk(k, t)
  {
    SubsetSize(t.collisions, s.collisions);
    forall id | id in t.collisions
      ensures id < t.idCount && (id in t.info ==> TriedCell(k, t.info[id].service) in t.triedCells) {
      if id in t.info {
        assert TriedCell(k, s.info[id].service) in s.triedCells.Keys;
      }
    }
  }

  /** The time stamps the consistency check looks at. */
  ghost predicate Timed(info: map<int, Info>) {
    forall id :: id in info ==>
      info[id].lastTry >= 0 && info[id].lastSuccess >= 0 && (info[id].inTried ==> info[id].lastSuccess != 0)
  }

  // ----- from new to tried

  /** Empties a tried cell, its occupant going back to the new table. */
  function MakeRoom(k: Env, s: State, c: Cell): State
    requires Linked(k, s)
  {
    if c !in s.triedCells then s
    else (EvictedKeeps(k, s, c); Returned(k, Evicted(s, c), s.triedCells[c]))
  }

  lemma MakeRoomKeeps(k: Env, s: State, c: Cell)
    requires Linked(k, s)
    ensures Linked(k, MakeRoom(k, s, c))
    ensures forall d :: Counted(s, d) ==> Counted(MakeRoom(k, s, c), d)
  {
    if c in s.triedCells {
      EvictedKeeps(k, s, c);
      ReturnedKeeps(k, Evicted(s, c), s.triedCells[c]);
      hide *;
    }
  }

  /** What stays the same while room is made: everything but the emptied cell and its occupant's state. */
  ghost predicate Roomed(s: State, t: State, c: Cell, id: int) {
    && id in s.info && id in t.info && SameEntry(t.info[id], s.info[id])
    && History(s.info, t.info)
    && t.triedCells == s.triedCells - {c}
    && t.idCount == s.idCount && t.collisions == s.collisions && t.lastGood == s.lastGood
  }

  /** An address without cells is untouched when another one returns to the new table. */
  lemma ReturnedFrame(k: Env, s: State, ev: int, id: int)
    requires Linked(k, s) && id in s.info && s.info[id].refCount == 0 && id != ev
    requires ev in s.info && !s.info[ev].inTried && s.info[ev].refCount == 0
    ensures var t := Returned(k, s, ev);
            && id in t.info && SameEntry(t.info[id], s.info[id])
            && History(s.info, t.info) && t.triedCells == s.triedCells
            && t.idCount == s.idCount && t.collisions == s.collisions && t.lastGood == s.lastGood
            && (Referenced(s.info, {id, ev}) ==> Referenced(t.info, {id}))
  {
    var home := HomeCell(k, s.info[ev]);
    UnreferencedSurvives(k, s, id, home);
    UnreferencedSurvives(k, s, ev, home);
    ClearNewKeeps(k, s, home);
    var t := ClearNew(k, s, home);
    hide NewCellsOk, TriedOk, AddrsInverse, RefsOk, RandomInverse, Linked, ClearNew, HomeCell, Referenced, History;
    AddRefHistory(s, t, ev, home);
    if Referenced(s.info, {id, ev}) {
      ClearedReferenced(s, t, home, {id, ev});
      AddRefReferenced(t, ev, home, {id});
    }
  }

  lemma AddRefHistory(s: State, t: State, id: int, c: Cell)
    requires History(s.info, t.info) && id in t.info
    ensures History(s.info, AddRef(t, id, c).info)
  {
  }

  lemma AddRefReferenced(s: State, id: int, c: Cell, loose: set<int>)
    requires Referenced(s.info, loose + {id}) && id in s.info && s.info[id].refCount >= 0
    ensures Referenced(AddRef(s, id, c).info, loose)
  {
  }

  lemma EvictedFrame(s: State, c: Cell, id: int, t: State)
    requires c in s.triedCells && s.triedCells[c] in s.info && s.info[s.triedCells[c]].inTried
    requires History(Evicted(s, c).info, t.info)
    ensures History(s.info, t.info)
    ensures Referenced(s.info, {id}) ==> Referenced(Evicted(s, c).info, {id, s.triedCells[c]})
  {
  }

  /** An untried address without cells is untouched by making room, and only the one tried cell is emptied. */
  lemma MakeRoomFrame(k: Env, s: State, c: Cell, id: int)
    requires Linked(k, s) && id in s.info && !s.info[id].inTried && s.info[id].refCount == 0
    ensures Roomed(s, MakeRoom(k, s, c), c, id)
    ensures Referenced(s.info, {id}) ==> Referenced(MakeRoom(k, s, c).info, {id})
  {
    if c in s.triedCells {
      var ev := s.triedCells[c];
      assert s.info[ev].inTried;
      var u := Evicted(s, c);
      hide Linked, Returned, Referenced, History;
      EvictedKeeps(k, s, c);
      ReturnedFrame(k, u, ev, id);
      EvictedFrame(s, c, id, MakeRoom(k, s, c));
    } else {
      assert s.triedCells - {c} == s.triedCells;
    }
  }

  function MakeTried(k: Env, s: State, id: int): State
    requires Linked(k, s) && id in s.info && !s.info[id].inTried
  {
    RemovedKeeps(k, s, id);
    var t := Removed(k, s, id);
    var c := TriedCell(k, s.info[id].service);
    MakeRoomFrame(k, t, c, id);
    Entered(k, MakeRoom(k, t, c), id)
  }

  lemma MakeTriedFrame(k: Env, s: State, t: State, u: State, id: int)
    requires id in s.info && !s.info[id].inTried && t == Removed(k, s, id)
    requires Roomed(t, u, TriedCell(k, s.info[id].service), id)
    ensures Stable(s, Entered(k, u, id)) && Entered(k, u, id).collisions == s.collisions
    ensures Entered(k, u, id).idCount == s.idCount
    ensures Referenced(s.info, {}) ==> Referenced(t.info, {id})
    ensures Referenced(u.info, {id}) ==> Referenced(Entered(k, u, id).info, {})
    ensures Timed(s.info) && s.info[id].lastSuccess != 0 ==> Timed(Entered(k, u, id).info)
  {
    hide TriedCell;
    var v := Entered(k, u, id);
    assert SameEntry(u.info[id], t.info[id]);
    assert forall x :: x in v.info ==> x in s.info && v.info[x].service == s.info[x].service;
    assert s.triedCells.Keys <= v.triedCells.Keys;
  }

  /** Moving an address to the tried table: the probing finds all its references, an evicted address finds
      its place in the new table, no assertion on the way can fail, and both counters come out right. */
  lemma MakeTriedKeeps(k: Env, s: State, id: int)
    requires Inv(k, s) && id in s.info && !s.info[id].inTried
    ensures Inv(k, MakeTried(k, s, id))
    ensures Stable(s, MakeTried(k, s, id)) && MakeTried(k, s, id).collisions == s.collisions
    ensures MakeTried(k, s, id).idCount == s.idCount
    ensures Timed(s.info) && s.info[id].lastSuccess != 0 ==> Timed(MakeTried(k, s, id).info)
  {
    RemovedKeeps(k, s, id);
    var t := Removed(k, s, id);
    var c := TriedCell(k, s.info[id].service);
    MakeRoomFrame(k, t, c, id);
    MakeRoomKeeps(k, t, c);
    var u := MakeRoom(k, t, c);
    assert SameEntry(u.info[id], t.info[id]);
    EnteredKeeps(k, u, id);
    MakeTriedFrame(k, s, t, u, id);
    assert MakeTried(k, s, id) == Entered(k, u, id);
    hide NewCellsOk, TriedOk, AddrsInverse, RefsOk, RandomInverse, MakeRoom, Linked, TriedCell, Probed,
         Counted, Referenced, Stable, Roomed, Entered, Timed;
    assert Counted(s, 0) && Counted(t, -1) && Counted(u, -1);
  }

  // ----- connection attempts and other statistics

  /** The record a service refers to, if the exact service is known. */
  predicate Knows(k: Env, s: State, service: Service)
    requires Linked(k, s)
  {
    service.addr in s.addr && s.info[s.addr[service.addr]].service == service
  }

  function Attempt(k: Env, s: State, service: Service, countFailure: bool, time: int): State
    requires Linked(k, s)
  {
    if !Knows(k, s, service) then s
    else
      var id := s.addr[service.addr];
      var i := s.info[id].(lastTry := time);
      SetInfo(s, id, if countFailure && i.lastCountAttempt < s.lastGood
                     then i.(lastCountAttempt := time, attempts := i.attempts + 1) else i)
  }

  function Connected(k: Env, s: State, service: Service, time: int): State
    requires Linked(k, s)
  {
    if !Knows(k, s, service) then s
    else
      var id := s.addr[service.addr];
      var i := s.info[id];
      SetInfo(s, id, if time - i.time > 20 * 60 then i.(time := time) else i)
  }

  function SetServices(k: Env, s: State, service: Service, services: bv64): State
    requires Linked(k, s)
  {
    if !Knows(k, s, service) then s
    else
      var id := s.addr[service.addr];
      SetInfo(s, id, s.info[id].(services := services))
  }

  /** A statistics update of one record keeps everything. */
  lemma TouchAll(k: Env, s: State, id: int, i: Info)
    requires Inv(k, s) && id in s.info
    requires i.service == s.info[id].service && i.refCount == s.info[id].refCount
          && i.inTried == s.info[id].inTried && i.randomPos == s.info[id].randomPos
    ensures Inv(k, SetInfo(s, id, i)) && Stable(s, SetInfo(s, id, i))
    ensures Timed(s.info) && i.lastTry >= 0 && i.lastSuccess >= 0 && (i.inTried ==> i.lastSuccess != 0)
        ==> Timed(SetInfo(s, id, i).info)
  {
    TouchKeeps(k, s, id, i);
    TouchKeepsOthers(k, s, id, i);
    hide Linked, Counted;
  }

  // ----- a successful connection

  /** The bookkeeping part of Good_ for a known service. */
  function Marked(k: Env, s: State, service: Service, time: int): State
    requires Linked(k, s) && Knows(k, s, service)
  {
    var id := s.addr[service.addr];
    SetInfo(s.(lastGood := time), id, s.info[id].(lastSuccess := time, lastTry := time, attempts := 0))
  }

  /** The last part of Good_: move to the tried table, or note a collision to be tested first. */
  function Promote(k: Env, s: State, id: int, testBeforeEvict: bool): State
    requires Inv(k, s) && id in s.info && !s.info[id].inTried
  {
    if testBeforeEvict && TriedCell(k, s.info[id].service) in s.triedCells then
      if |s.collisions| < SET_TRIED_COLLISION_SIZE then s.(collisions := s.collisions + {id}) else s
    else MakeTried(k, s, id)
  }

  function Good(k: Env, s: State, service: Service, testBeforeEvict: bool, time: int): State
    requires Inv(k, s)
  {
    if !Knows(k, s, service) then s.(lastGood := time)
    else
      var id := s.addr[service.addr];
      MarkedKeeps(k, s, service, time);
      var t := Marked(k, s, service, time);
      if t.info[id].inTried || Held(k, s.newCells, id, service, NEW_BUCKET_COUNT) == {} then t
      else Promote(k, t, id, testBeforeEvict)
  }

  lemma MarkedKeeps(k: Env, s: State, service: Service, time: int)
    requires Inv(k, s) && Knows(k, s, service)
    ensures var t := Marked(k, s, service, time);
            && Inv(k, t) && Stable(s, t) && t.idCount == s.idCount && t.collisions == s.collisions
            && (Timed(s.info) && time > 0 ==> Timed(t.info) && t.info[s.addr[service.addr]].lastSuccess != 0)
  {
    var id := s.addr[service.addr];
    TouchAll(k, s.(lastGood := time), id, s.info[id].(lastSuccess := time, lastTry := time, attempts := 0));
  }

  lemma PromoteKeeps(k: Env, s: State, id: int, testBeforeEvict: bool)
    requires Inv(k, s) && id in s.info && !s.info[id].inTried
    ensures var t := Promote(k, s, id, testBeforeEvict);
            && Inv(k, t) && Stable(s, t) && t.idCount == s.idCount
            && t.collisions >= s.collisions && (!testBeforeEvict ==> t.collisions == s.collisions)
            && (Timed(s.info) && s.info[id].lastSuccess != 0 ==> Timed(t.info))
  {
    hide Linked, MakeTried, Timed, Inv, Stable;
    MakeTriedKeeps(k, s, id);
    NotedKeeps(k, s, s.collisions);
    NotedKeeps(k, s, s.collisions + {id});
  }

  /** Nothing but the collision set changes when a collision is noted. */
  lemma NotedKeeps(k: Env, s: State, collisions: set<int>)
    requires Inv(k, s)
    ensures Inv(k, s.(collisions := collisions)) && Stable(s, s.(collisions := collisions))
  {
  }

  lemma PromoteCollisions(k: Env, s: State, id: int, testBeforeEvict: bool)
    requires Inv(k, s) && id in s.info && !s.info[id].inTried && CollisionsOk(k, s)
    ensures CollisionsOk(k, Promote(k, s, id, testBeforeEvict))
  {
    if testBeforeEvict && TriedCell(k, s.info[id].service) in s.triedCells {
      NotedCollision(k, s, id);
    } else {
      hide Linked, MakeTried, Stable, Inv, CollisionsOk;
      MakeTriedKeeps(k, s, id);
      StableCollisions(k, s, MakeTried(k, s, id));
    }
  }

  lemma NotedCollision(k: Env, s: State, id: int)
    requires CollisionsOk(k, s) && IdsOk(s.info, s.idCount) && id in s.info && TriedCell(k, s.info[id].service) in s.triedCells
    ensures |s.collisions| < SET_TRIED_COLLISION_SIZE ==> CollisionsOk(k, s.(collisions := s.collisions + {id}))
  {
  }

  /** A known untried address always has a new cell, so the search for one in Good_ never comes back empty. */
  lemma GoodFindsBucket(k: Env, s: State, service: Service)
    requires Inv(k, s) && Knows(k, s, service) && !s.info[s.addr[service.addr]].inTried
    ensures Held(k, s.newCells, s.addr[service.addr], service, NEW_BUCKET_COUNT) != {}
  {
    var id := s.addr[service.addr];
    HeldIsAll(k, s, id);
    assert s.info[id].refCount == |CellsOf(s.newCells, id)|;
  }

  lemma GoodKeeps(k: Env, s: State, service: Service, testBeforeEvict: bool, time: int)
    requires Inv(k, s)
    ensures var t := Good(k, s, service, testBeforeEvict, time);
            && Inv(k, t) && Stable(s, t) && t.idCount == s.idCount
            && t.collisions >= s.collisions && (!testBeforeEvict ==> t.collisions == s.collisions)
            && (Timed(s.info) && time > 0 ==> Timed(t.info))
  {
    if Knows(k, s, service) {
      var id := s.addr[service.addr];
      MarkedKeeps(k, s, service, time);
      var t := Marked(k, s, service, time);
      assert id in t.info;
      hide Linked, Inv, Held, Promote, Marked, Timed, Stable;
      if !t.info[id].inTried {
        PromoteKeeps(k, t, id, testBeforeEvict);
        StableTrans(s, t, Promote(k, t, id, testBeforeEvict));
      }
    }
  }

  lemma GoodCollisions(k: Env, s: State, service: Service, testBeforeEvict: bool, time: int)
    requires Inv(k, s) && CollisionsOk(k, s)
    ensures CollisionsOk(k, Good(k, s, service, testBeforeEvict, time))
  {
    if Knows(k, s, service) {
      var id := s.addr[service.addr];
      MarkedKeeps(k, s, service, time);
      var t := Marked(k, s, service, time);
      assert id in t.info;
      StableCollisions(k, s, t);
      hide Linked, Inv, Held, Promote, Marked, Timed, Stable, CollisionsOk;
      if !t.info[id].inTried {
        PromoteCollisions(k, t, id, testBeforeEvict);
      }
    }
  }
}
