/** The address manager object. Its bucket tables are arrays, its indexes maps and a sequence; every method is
    proved to do to the tables what the operations of AddrTable, AddrOps and AddrRuns say. */
module AddrMan {
  import opened Wrappers
  import opened Powers
  import opened AddrTable
  import opened AddrTableLemmas
  import opened AddrMoves
  import opened AddrOps
  import opened AddrRuns

  /** The occupied cells of a bucket table; -1 marks an empty one. */
  ghost function Grid(a: array2<int>): Cells
    reads a
  {
    map b: nat, p: nat | b < a.Length0 && p < a.Length1 && a[b, p] != -1 :: Cell(b, p) := a[b, p]
  }

  lemma GridAt(a: array2<int>, c: Cell)
    requires c.bucket < a.Length0 && c.pos < a.Length1
    ensures c in Grid(a) <==> a[c.bucket, c.pos] != -1
    ensures c in Grid(a) ==> Grid(a)[c] == a[c.bucket, c.pos]
  {
    assert c == Cell(c.bucket, c.pos);
  }

  method SetCell(a: array2<int>, c: Cell, id: int)
    requires c.bucket < a.Length0 && c.pos < a.Length1
    modifies a
    ensures Grid(a) == if id == -1 then old(Grid(a)) - {c} else old(Grid(a))[c := id]
  {
    ghost var before := Grid(a);
    a[c.bucket, c.pos] := id;
    ghost var after := if id == -1 then before - {c} else before[c := id];
    forall d: Cell ensures d in Grid(a) <==> d in after {
      assert d == Cell(d.bucket, d.pos);
    }
    forall d: Cell | d in after ensures Grid(a)[d] == after[d] {
      assert d == Cell(d.bucket, d.pos);
    }
  }

  // ----- steps of the loops

  lemma HeldNone(k: Env, s: State, id: int)
    requires id in s.info
    ensures Probed(k, s, id, 0) == s
  {
    assert Held(k, s.newCells, id, s.info[id].service, 0) == {};
    assert s.info[id := s.info[id]] == s.info;
  }

  lemma ProbedStep(k: Env, s: State, id: int, b: nat)
    requires id in s.info
    ensures var t := Probed(k, s, id, b);
            var c := NewCell(k, s.info[id].service, b);
            Probed(k, s, id, b + 1) ==
              if c in t.newCells && t.newCells[c] == id
              then t.(info := t.info[id := t.info[id].(refCount := t.info[id].refCount - 1)], newCells := t.newCells - {c})
              else t
  {
    hide Held, NewCell;
    HeldStep(k, s.newCells, id, s.info[id].service, b);
    var c := NewCell(k, s.info[id].service, b);
    var held := Held(k, s.newCells, id, s.info[id].service, b);
    if c in s.newCells && s.newCells[c] == id {
      assert s.newCells - (held + {c}) == s.newCells - held - {c};
    } else {
      assert held + {} == held;
    }
  }

  lemma RemovedEntry(k: Env, s: State, id: int)
    requires id in s.info
    ensures var t := Removed(k, s, id);
            id in t.info && t.info[id].service == s.info[id].service && t.info[id].inTried == s.info[id].inTried
  {
  }

  lemma EvictedEntry(s: State, c: Cell)
    requires c in s.triedCells && s.triedCells[c] in s.info
    ensures s.triedCells[c] in Evicted(s, c).info && !Evicted(s, c).info[s.triedCells[c]].inTried
  {
  }

  /** The buckets are searched in rotation from a random one. */
  function Rotated(n: nat, rnd: nat): nat {
    (n + rnd) % NEW_BUCKET_COUNT
  }

  lemma RotationCovers(b: nat, rnd: nat) returns (n: nat)
    requires b < NEW_BUCKET_COUNT
    ensures n < NEW_BUCKET_COUNT && Rotated(n, rnd) == b
  {
    n := (b + NEW_BUCKET_COUNT - rnd % NEW_BUCKET_COUNT) % NEW_BUCKET_COUNT;
  }

  /** Visiting one more collision at the end of the order. */
  lemma {:induction false} ResolveSnoc(k: Env, s: State, order: seq<int>, now: int, id: int)
    requires Inv(k, s)
    ensures Inv(k, Resolve(k, s, order, now))
    ensures Resolve(k, s, order + [id], now) == ResolveOne(k, Resolve(k, s, order, now), id, now)
    decreases |order|
  {
    hide ResolveOne, Linked;
    if order == [] {
      assert order + [id] == [id];
      ResolveOneKeeps(k, s, id, now);
    } else {
      ResolveOneKeeps(k, s, order[0], now);
      assert (order + [id])[1..] == order[1..] + [id];
      ResolveSnoc(k, ResolveOne(k, s, order[0], now), order[1..], now, id);
    }
  }

  lemma JudgedKnown(k: Env, s: State, id: int, now: int)
    requires Linked(k, s) && Judge(k, s, id, now).Replace?
    ensures id in s.info
  {
  }

  lemma RandomKnown(k: Env, s: State, i: nat, j: nat)
    requires Linked(k, s) && i < |s.random| && j < |s.random|
    ensures s.random[i] in s.info && s.random[j] in s.info
  {
  }

  lemma CellKnown(k: Env, s: State, c: Cell)
    requires Linked(k, s)
    ensures c in s.newCells ==> s.newCells[c] in s.info && !s.info[s.newCells[c]].inTried
  {
  }

  lemma IdIsNat(k: Env, s: State, id: int)
    requires Linked(k, s) && id in s.info
    ensures id >= 0
  {
  }

  /** The address index leads to known records. */
  lemma Resolves(k: Env, s: State, a: NetAddr)
    requires Inv(k, s)
    ensures Linked(k, s)
    ensures a in s.addr ==> s.addr[a] in s.info && s.addr[a] != -1
  {
  }

  lemma RotatedInRange(n: nat, rnd: nat)
    ensures Rotated(n, rnd) < NEW_BUCKET_COUNT
  {
  }

  lemma OrderLinked(k: Env, s: State)
    requires Linked(k, s)
    ensures RandomInverse(s.info, s.random)
  {
  }

  class AddrMan {
    const env: Env
    var idCount: int
    var mapInfo: map<int, Info>
    var mapAddr: map<NetAddr, int>
    var vRandom: seq<int>
    var nTried: int
    const vvTried: array2<int>
    var nNew: int
    const vvNew: array2<int>
    var lastGood: int
    var triedCollisions: set<int>

    ghost predicate Shaped() {
      && vvNew != vvTried
      && vvNew.Length0 == NEW_BUCKET_COUNT && vvNew.Length1 == BUCKET_SIZE
      && vvTried.Length0 == TRIED_BUCKET_COUNT && vvTried.Length1 == BUCKET_SIZE
    }

    ghost function Tables(): State
      reads this, vvNew, vvTried
    {
      State(idCount, mapInfo, mapAddr, vRandom, Grid(vvNew), Grid(vvTried), nNew, nTried, lastGood, triedCollisions)
    }

    constructor (env: Env)
      ensures Shaped() && fresh(vvNew) && fresh(vvTried) && this.env == env
      ensures Tables() == EMPTY
    {
      this.env := env;
      idCount, nTried, nNew, lastGood := 0, 0, 0, 1;
      mapInfo, mapAddr, vRandom, triedCollisions := map[], map[], [], {};
      vvNew := new int[NEW_BUCKET_COUNT, BUCKET_SIZE]((_, _) => -1);
      vvTried := new int[TRIED_BUCKET_COUNT, BUCKET_SIZE]((_, _) => -1);
      new;
      assert Grid(vvNew) == map[] && Grid(vvTried) == map[];
    }

    method SwapRandom(i: nat, j: nat)
      requires i < |vRandom| && j < |vRandom|
      requires vRandom[i] in mapInfo && vRandom[j] in mapInfo
      modifies this
      ensures Tables() == Swap(old(Tables()), i, j)
    {
      if i == j {
        return;
      }
      var id1, id2 := vRandom[i], vRandom[j];
      mapInfo := mapInfo[id1 := mapInfo[id1].(randomPos := j)];
      mapInfo := mapInfo[id2 := mapInfo[id2].(randomPos := i)];
      vRandom := vRandom[i := id2][j := id1];
    }

    method Delete(id: int)
      requires RandomInverse(mapInfo, vRandom)
      requires id in mapInfo && !mapInfo[id].inTried && mapInfo[id].refCount == 0
      modifies this
      ensures Tables() == AddrTable.Delete(old(Tables()), id)
    {
      hide Grid;
      var service := mapInfo[id].service;
      SwapRandom(mapInfo[id].randomPos, |vRandom| - 1);
      vRandom := vRandom[..|vRandom| - 1];
      mapAddr := mapAddr - {service.addr};
      mapInfo := mapInfo - {id};
      nNew := nNew - 1;
    }

    method ClearNew(c: Cell)
      requires Shaped() && Linked(env, Tables()) && c.bucket < NEW_BUCKET_COUNT && c.pos < BUCKET_SIZE
      modifies this, vvNew
      ensures Tables() == AddrTable.ClearNew(env, old(Tables()), c)
    {
      hide Grid, Linked, AddrTable.Delete;
      GridAt(vvNew, c);
      if vvNew[c.bucket, c.pos] != -1 {
        var id := vvNew[c.bucket, c.pos];
        ghost var s := Tables();
        CellKnown(env, s, c);
        UnrefKeeps(env, s, c);
        assert mapInfo[id].refCount > 0;
        mapInfo := mapInfo[id := mapInfo[id].(refCount := mapInfo[id].refCount - 1)];
        SetCell(vvNew, c, -1);
        assert Tables() == Unref(s, c);
        if mapInfo[id].refCount == 0 {
          OrderLinked(env, Tables());
          Delete(id);
        }
      }
    }

    method MakeTried(id: int)
      requires Shaped() && Linked(env, Tables()) && id in mapInfo && !mapInfo[id].inTried
      modifies this, vvNew, vvTried
      ensures Tables() == AddrOps.MakeTried(env, old(Tables()), id)
    {
      hide Grid, Linked, Removed, MakeRoom, Entered;
      ghost var s := Tables();
      IdIsNat(env, s, id);
      RemovedKeeps(env, s, id);
      RemovedEntry(env, s, id);
      RemoveFromNew(id);
      assert mapInfo[id].refCount == 0;

      var c := TriedCell(env, mapInfo[id].service);
      MakeRoomFrame(env, Tables(), c, id);
      ClearTried(c);
      EnterTried(id);
    }

    method EnterTried(id: int)
      requires Shaped() && id in mapInfo && id != -1 && TriedCell(env, mapInfo[id].service) !in Grid(vvTried)
      modifies this, vvTried
      ensures Tables() == Entered(env, old(Tables()), id)
    {
      hide Grid;
      var c := TriedCell(env, mapInfo[id].service);
      GridAt(vvTried, c);
      assert vvTried[c.bucket, c.pos] == -1;
      SetCell(vvTried, c, id);
      nTried := nTried + 1;
      mapInfo := mapInfo[id := mapInfo[id].(inTried := true)];
    }

    /** The first loop of MakeTried: drop the entry from every new bucket that holds it. */
    method RemoveFromNew(id: int)
      requires Shaped() && id in mapInfo && id != -1
      modifies this, vvNew
      ensures Tables() == Removed(env, old(Tables()), id)
    {
      hide Grid, Held;
      ghost var s := Tables();
      var service := mapInfo[id].service;
      var bucket: nat := 0;
      HeldNone(env, s, id);
      while bucket < NEW_BUCKET_COUNT
        invariant bucket <= NEW_BUCKET_COUNT
        invariant Tables() == Probed(env, s, id, bucket)
      {
        ProbedStep(env, s, id, bucket);
        var c := NewCell(env, service, bucket);
        GridAt(vvNew, c);
        if vvNew[c.bucket, c.pos] == id {
          SetCell(vvNew, c, -1);
          mapInfo := mapInfo[id := mapInfo[id].(refCount := mapInfo[id].refCount - 1)];
        }
        bucket := bucket + 1;
      }
      nNew := nNew - 1;
    }

    /** Makes space: an existing tried entry is moved to new, deleting whatever is there. */
    method ClearTried(c: Cell)
      requires Shaped() && Linked(env, Tables()) && c.bucket < TRIED_BUCKET_COUNT && c.pos < BUCKET_SIZE
      modifies this, vvNew, vvTried
      ensures Tables() == MakeRoom(env, old(Tables()), c)
    {
      ghost var s := Tables();
      assert TriedOk(env, s.info, s.triedCells);
      hide Grid, Linked, Evicted, Returned;
      GridAt(vvTried, c);
      if vvTried[c.bucket, c.pos] != -1 {
        EvictedKeeps(env, s, c);
        EvictedEntry(s, c);
        var id := LeaveTried(c);
        ReturnToNew(id);
      }
    }

    /** Removes the to-be-evicted entry from the tried set. */
    method LeaveTried(c: Cell) returns (id: int)
      requires Shaped() && c.bucket < TRIED_BUCKET_COUNT && c.pos < BUCKET_SIZE
      requires c in Grid(vvTried) && Grid(vvTried)[c] in mapInfo
      modifies this, vvTried
      ensures id == old(Grid(vvTried)[c])
      ensures Tables() == Evicted(old(Tables()), c)
    {
      hide Grid;
      GridAt(vvTried, c);
      id := vvTried[c.bucket, c.pos];
      mapInfo := mapInfo[id := mapInfo[id].(inTried := false)];
      SetCell(vvTried, c, -1);
      nTried := nTried - 1;
    }

    /** Finds which new bucket the evicted entry belongs to and enters it there. */
    method ReturnToNew(id: int)
      requires Shaped() && Linked(env, Tables()) && id in mapInfo && !mapInfo[id].inTried && mapInfo[id].refCount == 0
      modifies this, vvNew
      ensures Tables() == Returned(env, old(Tables()), id)
    {
      hide Grid, Linked, AddrTable.ClearNew;
      ghost var s := Tables();
      IdIsNat(env, s, id);
      var home := HomeCell(env, mapInfo[id]);
      UnreferencedSurvives(env, s, id, home);
      ClearNewKeeps(env, s, home);
      ClearNew(home);
      GridAt(vvNew, home);
      assert vvNew[home.bucket, home.pos] == -1;
      mapInfo := mapInfo[id := mapInfo[id].(refCount := 1)];
      SetCell(vvNew, home, id);
      nNew := nNew + 1;
    }

    method Attempt(service: Service, countFailure: bool, time: int)
      requires Shaped() && Linked(env, Tables())
      modifies this
      ensures Tables() == AddrOps.Attempt(env, old(Tables()), service, countFailure, time)
    {
      if service.addr !in mapAddr {
        return;
      }
      var id := mapAddr[service.addr];
      if mapInfo[id].service != service {
        return;
      }
      var i := mapInfo[id].(lastTry := time);
      if countFailure && i.lastCountAttempt < lastGood {
        i := i.(lastCountAttempt := time, attempts := i.attempts + 1);
      }
      mapInfo := mapInfo[id := i];
    }

    method Connected(service: Service, time: int)
      requires Shaped() && Linked(env, Tables())
      modifies this
      ensures Tables() == AddrOps.Connected(env, old(Tables()), service, time)
    {
      if service.addr !in mapAddr {
        return;
      }
      var id := mapAddr[service.addr];
      var i := mapInfo[id];
      if i.service != service {
        return;
      }
      if time - i.time > 20 * 60 {
        i := i.(time := time);
      }
      mapInfo := mapInfo[id := i];
    }

    method SetServices(service: Service, services: bv64)
      requires Shaped() && Linked(env, Tables())
      modifies this
      ensures Tables() == AddrOps.SetServices(env, old(Tables()), service, services)
    {
      if service.addr !in mapAddr {
        return;
      }
      var id := mapAddr[service.addr];
      if mapInfo[id].service != service {
        return;
      }
      mapInfo := mapInfo[id := mapInfo[id].(services := services)];
    }

    /** Looks for a bucket holding the entry, starting at a random one. */
    method FindBucket(id: int, service: Service, rnd: nat) returns (found: bool)
      requires Shaped() && id != -1
      ensures found <==> Held(env, Grid(vvNew), id, service, NEW_BUCKET_COUNT) != {}
    {
      hide Grid, Rotated;
      ghost var cells := Grid(vvNew);
      var n: nat := 0;
      while n < NEW_BUCKET_COUNT
        invariant n <= NEW_BUCKET_COUNT
        invariant forall m: nat :: m < n ==>
                    var c := NewCell(env, service, Rotated(m, rnd)); c !in cells || cells[c] != id
      {
        var b := Rotated(n, rnd);
        RotatedInRange(n, rnd);
        var c := NewCell(env, service, b);
        GridAt(vvNew, c);
        if vvNew[c.bucket, c.pos] == id {
          assert c in Held(env, cells, id, service, NEW_BUCKET_COUNT);
          return true;
        }
        n := n + 1;
      }
      forall c | c in cells && c.bucket < NEW_BUCKET_COUNT && c == NewCell(env, service, c.bucket) ensures cells[c] != id {
        var m := RotationCovers(c.bucket, rnd);
      }
      return false;
    }

    method Good(service: Service, testBeforeEvict: bool, time: int, rnd: nat)
      requires Shaped() && Inv(env, Tables())
      modifies this, vvNew, vvTried
      ensures Tables() == AddrOps.Good(env, old(Tables()), service, testBeforeEvict, time)
    {
      hide Grid, Linked, Inv, Held, Promote;
      ghost var s := Tables();
      Resolves(env, s, service.addr);
      lastGood := time;
      if service.addr !in mapAddr {
        return;
      }
      var id := mapAddr[service.addr];
      if mapInfo[id].service != service {
        return;
      }
      MarkedKeeps(env, s, service, time);
      mapInfo := mapInfo[id := mapInfo[id].(lastSuccess := time, lastTry := time, attempts := 0)];
      assert Tables() == Marked(env, s, service, time);
      if mapInfo[id].inTried {
        return;
      }
      var found := FindBucket(id, service, rnd);
      if !found {
        return;
      }
      PromoteEntry(id, testBeforeEvict);
    }

    /** The end of Good: evict at once, or note the collision to have the occupant tested first. */
    method PromoteEntry(id: int, testBeforeEvict: bool)
      requires Shaped() && Inv(env, Tables()) && id in mapInfo && !mapInfo[id].inTried
      modifies this, vvNew, vvTried
      ensures Tables() == Promote(env, old(Tables()), id, testBeforeEvict)
    {
      hide Grid, Linked, AddrOps.MakeTried;
      var c := TriedCell(env, mapInfo[id].service);
      GridAt(vvTried, c);
      if testBeforeEvict && vvTried[c.bucket, c.pos] != -1 {
        if |triedCollisions| < SET_TRIED_COLLISION_SIZE {
          triedCollisions := triedCollisions + {id};
        }
      } else {
        MakeTried(id);
      }
    }

    method Create(a: Address, source: NetAddr) returns (id: int)
      modifies this
      ensures id == old(idCount) && Tables() == AddrTable.Create(old(Tables()), a, source)
    {
      hide Grid;
      id := idCount;
      idCount := idCount + 1;
      mapInfo := mapInfo[id := NewInfo(a, source)];
      mapAddr := mapAddr[a.service.addr := id];
      mapInfo := mapInfo[id := mapInfo[id].(randomPos := |vRandom|)];
      vRandom := vRandom + [id];
    }

    method Add(a: Address, source: NetAddr, timePenalty: int, now: int, rnd: nat) returns (isNew: bool)
      requires Shaped() && Inv(env, Tables()) && 0 <= idCount
      modifies this, vvNew
      ensures (Tables(), isNew) == AddrRuns.Add(env, old(Tables()), a, source, timePenalty, now, rnd)
    {
      hide Grid, Linked, Inv, Place, Introduced, Retains, Refreshed;
      ghost var s := Tables();
      Resolves(env, s, a.service.addr);
      if !env.isRoutable(a.service.addr) {
        return false;
      }
      // Do not set a penalty for a source's self-announcement.
      var penalty := if a.service.addr == source then 0 else timePenalty;
      if a.service.addr in mapAddr {
        AddKnown(mapAddr[a.service.addr], a, source, penalty, now, rnd);
        return false;
      }
      IntroducedKeeps(env, s, a, source, penalty);
      var id := CreateAged(a, source, penalty);
      PlaceEntry(id, source, now);
      return true;
    }

    method AddKnown(id: int, a: Address, source: NetAddr, penalty: int, now: int, rnd: nat)
      requires Shaped() && Inv(env, Tables()) && id in mapInfo
      modifies this, vvNew
      ensures Inv(env, SetInfo(old(Tables()), id, Refreshed(old(mapInfo)[id], a, penalty, now)))
      ensures var i := Refreshed(old(mapInfo)[id], a, penalty, now);
              var t := SetInfo(old(Tables()), id, i);
              Tables() == if Retains(i, a, rnd) then Place(env, t, id, source, now) else t
    {
      hide Grid, Linked, Inv, Place, Pow2;
      ghost var s := Tables();
      var i := Refreshed(mapInfo[id], a, penalty, now);
      TouchAll(env, s, id, i);
      Resolves(env, SetInfo(s, id, i), i.service.addr);
      mapInfo := mapInfo[id := i];
      var retain := TestRetention(i, a, rnd);
      if retain {
        PlaceEntry(id, source, now);
      }
    }

    method CreateAged(a: Address, source: NetAddr, penalty: int) returns (id: int)
      modifies this
      ensures id == old(idCount) && Tables() == Introduced(old(Tables()), a, source, penalty)
    {
      hide Grid;
      id := Create(a, source);
      var i := mapInfo[id];
      mapInfo := mapInfo[id := i.(time := if i.time - penalty > 0 then i.time - penalty else 0)];
      nNew := nNew + 1;
    }

    /** The tests in Add_ that keep a known address from getting another reference. */
    method TestRetention(i: Info, a: Address, rnd: nat) returns (retain: bool)
      ensures retain == Retains(i, a, rnd)
    {
      if a.time == 0 || (i.time != 0 && a.time <= i.time) {
        return false;
      }
      if i.inTried {
        return false;
      }
      if i.refCount == NEW_BUCKETS_PER_ADDRESS {
        return false;
      }
      var factor := 1;
      var n := 0;
      while n < i.refCount
        invariant 0 <= n && (n <= i.refCount || n == 0)
        invariant factor == Pow2(n)
      {
        factor := factor * 2;
        n := n + 1;
      }
      if factor > 1 && rnd % factor != 0 {
        return false;
      }
      return true;
    }

    /** The last part of Add_. */
    method PlaceEntry(id: int, source: NetAddr, now: int)
      requires Shaped() && Linked(env, Tables()) && id in mapInfo && !mapInfo[id].inTried
      modifies this, vvNew
      ensures Tables() == Place(env, old(Tables()), id, source, now)
    {
      ghost var s := Tables();
      var c := AnnouncedCell(env, mapInfo[id].service, source);
      assert IdsOk(s.info, s.idCount) && (c in s.newCells ==> s.newCells[c] in s.info);
      hide Grid, Linked, AddrTable.ClearNew, AddrTable.Delete, IsTerrible, AddRef;
      GridAt(vvNew, c);
      var other := vvNew[c.bucket, c.pos];
      if other != id {
        var insert := other == -1;
        if !insert {
          if IsTerrible(mapInfo[other], now) || (mapInfo[other].refCount > 1 && mapInfo[id].refCount == 0) {
            insert := true;
          }
        }
        if insert {
          TakeCell(id, c);
        } else if mapInfo[id].refCount == 0 {
          Delete(id);
        }
      }
    }

    /** Clears the cell and gives it to the entry. */
    method TakeCell(id: int, c: Cell)
      requires Shaped() && Linked(env, Tables()) && id in mapInfo && id != -1
      requires c.bucket < NEW_BUCKET_COUNT && c.pos < BUCKET_SIZE && (c in Grid(vvNew) ==> Grid(vvNew)[c] != id)
      modifies this, vvNew
      ensures id in AddrTable.ClearNew(env, old(Tables()), c).info
      ensures Tables() == AddRef(AddrTable.ClearNew(env, old(Tables()), c), id, c)
    {
      hide Grid, Linked, AddrTable.ClearNew;
      OtherSurvives(env, Tables(), id, c);
      ClearNew(c);
      mapInfo := mapInfo[id := mapInfo[id].(refCount := mapInfo[id].refCount + 1)];
      SetCell(vvNew, c, id);
    }

    method ResolveCollisions(now: int, rnd: int -> nat) returns (ghost order: seq<int>)
      requires Shaped() && Inv(env, Tables())
      modifies this, vvNew, vvTried
      ensures Tables() == Resolve(env, old(Tables()), order, now)
      ensures multiset(order) == multiset(old(triedCollisions))
    {
      hide Grid, Linked, ResolveOne;
      ghost var s := Tables();
      var todo := triedCollisions;
      order := [];
      while todo != {}
        invariant Inv(env, Tables())
        invariant Tables() == Resolve(env, s, order, now)
        invariant todo <= old(triedCollisions)
        invariant multiset(order) == multiset(old(triedCollisions) - todo)
        decreases |todo|
      {
        HasMember(todo);
        var id :| id in todo;
        ResolveSnoc(env, s, order, now, id);
        ResolveOneKeeps(env, Tables(), id, now);
        ResolveCollision(id, now, rnd(id));
        assert old(triedCollisions) - (todo - {id}) == (old(triedCollisions) - todo) + {id};
        order := order + [id];
        todo := todo - {id};
      }
      assert old(triedCollisions) - todo == old(triedCollisions);
    }

    method ResolveCollision(id: int, now: int, rnd: nat)
      requires Shaped() && Inv(env, Tables())
      modifies this, vvNew, vvTried
      ensures Tables() == ResolveOne(env, old(Tables()), id, now)
    {
      hide Grid, Linked, AddrOps.Good, Judge;
      var verdict := JudgeCollision(id, now);
      if verdict.Replace? {
        JudgedKnown(env, Tables(), id, now);
        Good(mapInfo[id].service, false, now, rnd);
      }
      if !verdict.Keep? {
        triedCollisions := triedCollisions - {id};
      }
    }

    method JudgeCollision(id: int, now: int) returns (v: Verdict)
      requires Shaped() && Linked(env, Tables())
      ensures v == Judge(env, Tables(), id, now)
    {
      ghost var s := Tables();
      assert forall c :: c in s.triedCells ==> var x := s.triedCells[c]; x in s.info;
      hide Grid, Linked;
      if id !in mapInfo {
        return Discard;
      }
      var info := mapInfo[id];
      var c := TriedCell(env, info.service);
      GridAt(vvTried, c);
      var occupant := vvTried[c.bucket, c.pos];
      if !env.isValid(info.service.addr) {
        return Discard;
      }
      if occupant != -1 {
        var infoOld := mapInfo[occupant];
        if now - infoOld.lastSuccess < REPLACEMENT_HOURS * HOUR {
          return Discard;
        }
        if now - infoOld.lastTry < REPLACEMENT_HOURS * HOUR {
          if now - infoOld.lastTry > 60 {
            return Replace;
          }
        }
        return Keep;
      }
      return Replace;
    }

    /** Reports the occupant of the cell the pending collision `id` is over; the lookup never meets an empty cell. */
    method SelectTriedCollision(id: int) returns (r: Option<Info>)
      requires Shaped() && Inv(env, Tables()) && id in triedCollisions
      modifies this
      ensures (Tables(), r) == SelectCollision(env, old(Tables()), id)
    {
      hide Grid;
      if id !in mapInfo {
        triedCollisions := triedCollisions - {id};
        return None;
      }
      var c := TriedCell(env, mapInfo[id].service);
      GridAt(vvTried, c);
      var occupant := vvTried[c.bucket, c.pos];
      assert -1 !in mapInfo && (occupant != -1 ==> occupant in mapInfo);
      if occupant !in mapInfo { mapInfo := mapInfo[occupant := DEFAULT_INFO]; }
      r := Some(mapInfo[occupant]);
    }

    method Draw(n: nat, rnd: nat -> nat)
      requires Linked(env, Tables()) && n < |vRandom|
      modifies this
      ensures Tables() == Drawn(env, old(Tables()), n, rnd)
    {
      hide Grid, Linked, Swap;
      var p := rnd(n) % (|vRandom| - n) + n;
      RandomKnown(env, Tables(), n, p);
      SwapRandom(n, p);
    }

    method GetAddr(rnd: nat -> nat, now: int) returns (vAddr: seq<Address>)
      requires Shaped() && Linked(env, Tables())
      modifies this
      ensures (Tables(), vAddr) == Gather(env, old(Tables()), 0, SampleLimit(old(Tables())), rnd, now, [])
    {
      ghost var s := Tables();
      hide Grid, Linked, IsTerrible, Drawn;
      var nodes := GETADDR_MAX_PCT * |vRandom| / 100;
      if nodes > GETADDR_MAX {
        nodes := GETADDR_MAX;
      }
      vAddr := [];
      var n: nat := 0;
      while n < |vRandom|
        invariant Linked(env, Tables())
        invariant Gather(env, s, 0, nodes, rnd, now, []) == Gather(env, Tables(), n, nodes, rnd, now, vAddr)
      {
        if |vAddr| >= nodes {
          break;
        }
        DrawnLinked(env, Tables(), n, rnd);
        Draw(n, rnd);
        var i := mapInfo[vRandom[n]];
        if !IsTerrible(i, now) {
          vAddr := vAddr + [AddressOf(i)];
        }
        n := n + 1;
      }
    }
  }
}
