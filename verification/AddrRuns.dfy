/** Announced addresses, collision handling, random samples, and the consistency of whole runs. */
module AddrRuns {
  import opened Wrappers
  import opened Powers
  import opened AddrTable
  import opened AddrTableLemmas
  import opened AddrMoves
  import opened AddrOps

  // ----- announcing an address

  /** Where Add_ puts an address it wants to give one more reference. */
  function AnnouncedCell(k: Env, service: Service, source: NetAddr): Cell {
    NewCell(k, service, NewBucket(k, service, source))
  }

  predicate Overwrites(s: State, id: int, c: Cell, now: int)
    requires id in s.info && (c in s.newCells ==> s.newCells[c] in s.info)
  {
    c !in s.newCells ||
    (var other := s.info[s.newCells[c]]; IsTerrible(other, now) || (other.refCount > 1 && s.info[id].refCount == 0))
  }

  /** The last part of Add_: take the cell, or leave it and forget an address that has no other. */
  function Place(k: Env, s: State, id: int, source: NetAddr, now: int): State
    requires Linked(k, s) && id in s.info
  {
    var c := AnnouncedCell(k, s.info[id].service, source);
    if c in s.newCells && s.newCells[c] == id then s
    else if Overwrites(s, id, c, now) then (OtherSurvives(k, s, id, c); AddRef(ClearNew(k, s, c), id, c))
    else if s.info[id].refCount == 0 then Delete(s, id)
    else s
  }

  lemma OtherSurvives(k: Env, s: State, id: int, c: Cell)
    requires Linked(k, s) && id in s.info && (c in s.newCells ==> s.newCells[c] != id)
    ensures id in ClearNew(k, s, c).info && SameEntry(ClearNew(k, s, c).info[id], s.info[id])
  {
    ClearNewKeeps(k, s, c);
  }

  lemma TakeKeeps(k: Env, s: State, id: int, c: Cell)
    requires Linked(k, s) && id in s.info && !s.info[id].inTried && s.info[id].refCount < NEW_BUCKETS_PER_ADDRESS
    requires c in s.newCells ==> s.newCells[c] != id
    requires c.bucket < NEW_BUCKET_COUNT && c == NewCell(k, s.info[id].service, c.bucket)
    ensures id in ClearNew(k, s, c).info
    ensures var t := AddRef(ClearNew(k, s, c), id, c);
            && Linked(k, t) && (forall d :: Counted(s, d) ==> Counted(t, d))
            && History(s.info, t.info) && t.triedCells == s.triedCells
            && t.idCount == s.idCount && t.collisions == s.collisions
            && (Referenced(s.info, {id}) ==> Referenced(t.info, {}))
  {
    OtherSurvives(k, s, id, c);
    ClearNewKeeps(k, s, c);
    var t := ClearNew(k, s, c);
    assert CanRef(k, t, id, c);
    AddRefKeeps(k, t, id, c);
    hide NewCellsOk, TriedOk, AddrsInverse, RefsOk, RandomInverse, Linked, ClearNew, Referenced, History;
    AddRefHistory(s, t, id, c);
    if Referenced(s.info, {id}) {
      ClearedReferenced(s, t, c, {id});
      assert {id} == {} + {id};
      AddRefReferenced(t, id, c, {});
    }
  }

  lemma DropKeeps(k: Env, s: State, id: int)
    requires Linked(k, s) && id in s.info && !s.info[id].inTried && s.info[id].refCount == 0
    ensures var t := Delete(s, id);
            && Linked(k, t) && (forall d :: Counted(s, d) ==> Counted(t, d))
            && History(s.info, t.info) && t.triedCells == s.triedCells
            && t.idCount == s.idCount && t.collisions == s.collisions
            && (Referenced(s.info, {id}) ==> Referenced(t.info, {}))
  {
    assert RandomInverse(s.info, s.random);
    hide Linked, RandomInverse, Counted, SameExcept, History, Referenced, Delete;
    DeleteKeeps(k, s, id);
    SameExceptHistory(s.info, Delete(s, id).info, id);
  }

  lemma SameExceptHistory(info: map<int, Info>, after: map<int, Info>, id: int)
    requires SameExcept(info, after, {id})
    ensures History(info, after)
    ensures Referenced(info, {id}) ==> Referenced(after, {})
  {
    forall x | x in after ensures x in info && x != id && SameEntry(after[x], info[x]) {}
  }

  lemma HoldsCell(k: Env, s: State, id: int, c: Cell)
    requires Linked(k, s) && c in s.newCells && s.newCells[c] == id
    ensures id in s.info && s.info[id].refCount > 0
  {
    NoCells(s.newCells, id);
    assert s.info[id].refCount == |CellsOf(s.newCells, id)|;
  }

  /** Whether or not the cell is taken, every remaining untried address has a cell afterwards. */
  lemma PlaceKeeps(k: Env, s: State, id: int, source: NetAddr, now: int)
    requires Linked(k, s) && id in s.info && !s.info[id].inTried && s.info[id].refCount < NEW_BUCKETS_PER_ADDRESS
    requires Referenced(s.info, {id}) && Counted(s, 0)
    ensures var t := Place(k, s, id, source, now);
            && Inv(k, t) && History(s.info, t.info) && t.triedCells == s.triedCells
            && t.idCount == s.idCount && t.collisions == s.collisions
  {
    var c := AnnouncedCell(k, s.info[id].service, source);
    if c in s.newCells && s.newCells[c] == id {
      HoldsCell(k, s, id, c);
    } else {
      TakeKeeps(k, s, id, c);
      if s.info[id].refCount == 0 { DropKeeps(k, s, id); }
      hide Linked, Counted, History, ClearNew, Delete, AddRef;
    }
  }

  const HOUR := 60 * 60
  const DAY := 24 * 60 * 60

  /** What an announcement teaches about an address already known. */
  function Refreshed(i: Info, a: Address, penalty: int, now: int): Info {
    var interval := if now - a.time < DAY then HOUR else DAY;
    var stale := a.time != 0 && (i.time == 0 || i.time < a.time - interval - penalty);
    i.(time := if stale then (if a.time - penalty > 0 then a.time - penalty else 0) else i.time,
       services := i.services | a.services)
  }

  /** Whether a known address is to get one more reference; each one makes the next half as likely. */
  predicate Retains(i: Info, a: Address, rnd: nat) {
    && a.time != 0 && !(i.time != 0 && a.time <= i.time)
    && !i.inTried
    && i.refCount != NEW_BUCKETS_PER_ADDRESS
    && (i.refCount <= 0 || rnd % Pow2(i.refCount) == 0)
  }

  function Penalty(a: Address, source: NetAddr, penalty: int): int {
    if a.service.addr == source then 0 else penalty
  }

  /** The record an unknown address starts with. */
  function Introduced(s: State, a: Address, source: NetAddr, penalty: int): State {
    var t := Create(s, a, source);
    var i := t.info[s.idCount];
    SetInfo(t, s.idCount, i.(time := if i.time - penalty > 0 then i.time - penalty else 0)).(nNew := s.nNew + 1)
  }

  function Add(k: Env, s: State, a: Address, source: NetAddr, penaltyIn: int, now: int, rnd: nat): (State, bool)
    requires Inv(k, s) && 0 <= s.idCount
  {
    var penalty := Penalty(a, source, penaltyIn);
    if !k.isRoutable(a.service.addr) then (s, false)
    else if a.service.addr in s.addr then
      var id := s.addr[a.service.addr];
      var i := Refreshed(s.info[id], a, penalty, now);
      TouchAll(k, s, id, i);
      var t := SetInfo(s, id, i);
      (if Retains(i, a, rnd) then Place(k, t, id, source, now) else t, false)
    else
      IntroducedKeeps(k, s, a, source, penalty);
      (Place(k, Introduced(s, a, source, penalty), s.idCount, source, now), true)
  }

  lemma IntroducedKeeps(k: Env, s: State, a: Address, source: NetAddr, penalty: int)
    requires Inv(k, s) && 0 <= s.idCount && a.service.addr !in s.addr
    ensures var t := Introduced(s, a, source, penalty);
            && Linked(k, t) && Counted(t, 0) && Referenced(t.info, {s.idCount})
            && s.idCount in t.info && !t.info[s.idCount].inTried && t.info[s.idCount].refCount == 0
            && Stable(s, t) && t.idCount == s.idCount + 1 && t.collisions == s.collisions && t.triedCells == s.triedCells
            && (Timed(s.info) ==> Timed(t.info))
  {
    var u := Introduced(s, a, source, penalty);
    var t := Create(s, a, source);
    hide NewCellsOk, TriedOk, AddrsInverse, RefsOk, RandomInverse;
    CreateKeeps(k, s, a, source);
    assert Counted(t, -1);
    TouchKeeps(k, t, s.idCount, u.info[s.idCount]);
  }

  lemma HistoryStable(s: State, t: State)
    requires History(s.info, t.info) && t.idCount == s.idCount && t.triedCells == s.triedCells
    ensures Stable(s, t) && (Timed(s.info) ==> Timed(t.info))
  {
  }

  lemma AddKeeps(k: Env, s: State, a: Address, source: NetAddr, penaltyIn: int, now: int, rnd: nat)
    requires Inv(k, s) && 0 <= s.idCount
    ensures var t := Add(k, s, a, source, penaltyIn, now, rnd).0;
            && Inv(k, t) && Stable(s, t) && 0 <= t.idCount && t.collisions == s.collisions
            && (Timed(s.info) ==> Timed(t.info))
  {
    var penalty := Penalty(a, source, penaltyIn);
    StableSame(s);
    assert a.service.addr in s.addr ==> s.addr[a.service.addr] in s.info;
    hide Inv, Stable, Timed, Place, Introduced, Retains, Linked;
    if a.service.addr in s.addr {
      var id := s.addr[a.service.addr];
      AddKnownKeeps(k, s, id, Refreshed(s.info[id], a, penalty, now), a, source, now, rnd);
    } else {
      AddUnknownKeeps(k, s, a, source, penalty, now);
    }
  }

  lemma AddKnownKeeps(k: Env, s: State, id: int, i: Info, a: Address, source: NetAddr, now: int, rnd: nat)
    requires Inv(k, s) && id in s.info
    requires exists time, services :: i == s.info[id].(time := time, services := services)
    ensures Inv(k, SetInfo(s, id, i))
    ensures var t := SetInfo(s, id, i);
            var u := if Retains(i, a, rnd) then Place(k, t, id, source, now) else t;
            && Inv(k, u) && Stable(s, u) && u.idCount == s.idCount && u.collisions == s.collisions
            && (Timed(s.info) ==> Timed(u.info))
  {
    TouchAll(k, s, id, i);
    var t := SetInfo(s, id, i);
    if Retains(i, a, rnd) {
      assert t.info[id].refCount == |CellsOf(t.newCells, id)| <= NEW_BUCKETS_PER_ADDRESS;
      assert Referenced(t.info, {id});
      hide Stable, Timed, Place, Retains, Linked, Counted;
      PlaceKeeps(k, t, id, source, now);
      var u := Place(k, t, id, source, now);
      HistoryStable(t, u);
      StableTrans(s, t, u);
    }
  }

  lemma AddUnknownKeeps(k: Env, s: State, a: Address, source: NetAddr, penalty: int, now: int)
    requires Inv(k, s) && 0 <= s.idCount && a.service.addr !in s.addr
    ensures Linked(k, Introduced(s, a, source, penalty)) && s.idCount in Introduced(s, a, source, penalty).info
    ensures var u := Place(k, Introduced(s, a, source, penalty), s.idCount, source, now);
            && Inv(k, u) && Stable(s, u) && u.idCount == s.idCount + 1 && u.collisions == s.collisions
            && (Timed(s.info) ==> Timed(u.info))
  {
    hide Stable, Timed, Place, Linked, Counted, Introduced, Referenced;
    IntroducedKeeps(k, s, a, source, penalty);
    var t := Introduced(s, a, source, penalty);
    PlaceKeeps(k, t, s.idCount, source, now);
    var u := Place(k, t, s.idCount, source, now);
    HistoryStable(t, u);
    StableTrans(s, t, u);
  }

  // ----- resolving collisions

  datatype Verdict = Keep | Discard | Replace

  /** What becomes of one pending collision: the occupant may have proved good, or be given up on. */
  function Judge(k: Env, s: State, id: int, now: int): Verdict
    requires Linked(k, s)
  {
    if id !in s.info then Discard
    else
      var c := TriedCell(k, s.info[id].service);
      if !k.isValid(s.info[id].service.addr) then Discard
      else if c in s.triedCells then
        var occupant := s.info[s.triedCells[c]];
        if now - occupant.lastSuccess < REPLACEMENT_HOURS * HOUR then Discard
        else if now - occupant.lastTry < REPLACEMENT_HOURS * HOUR && now - occupant.lastTry > 60 then Replace
        else Keep
      else Replace
  }

  function ResolveOne(k: Env, s: State, id: int, now: int): State
    requires Inv(k, s)
  {
    match Judge(k, s, id, now)
    case Keep => s
    case Discard => s.(collisions := s.collisions - {id})
    case Replace =>
      var t := Good(k, s, s.info[id].service, false, now);
      t.(collisions := t.collisions - {id})
  }

  /** Visits the pending collisions in the given order. */
  function Resolve(k: Env, s: State, order: seq<int>, now: int): State
    requires Inv(k, s)
    decreases |order|
  {
    if order == [] then s
    else
      ResolveOneKeeps(k, s, order[0], now);
      Resolve(k, ResolveOne(k, s, order[0], now), order[1..], now)
  }

  lemma ResolveOneKeeps(k: Env, s: State, id: int, now: int)
    requires Inv(k, s) && Linked(k, s)
    ensures var t := ResolveOne(k, s, id, now);
            && Inv(k, t) && Stable(s, t) && t.idCount == s.idCount && t.collisions <= s.collisions
            && (CollisionsOk(k, s) ==> CollisionsOk(k, t))
            && (Timed(s.info) && now > 0 ==> Timed(t.info))
  {
    hide Linked, Inv, Stable, CollisionsOk, Timed, Good;
    var t := s;
    if Judge(k, s, id, now).Replace? {
      GoodKeeps(k, s, s.info[id].service, false, now);
      t := Good(k, s, s.info[id].service, false, now);
    } else {
      NotedKeeps(k, s, s.collisions);
    }
    NotedKeeps(k, t, t.collisions - {id});
    NotedKeeps(k, t, t.collisions);
    StableTrans(s, t, t.(collisions := t.collisions - {id}));
    StableTrans(s, t, t.(collisions := t.collisions));
    if CollisionsOk(k, s) {
      StableCollisions(k, s, t.(collisions := t.collisions - {id}));
    }
  }

  lemma {:induction false} ResolveKeeps(k: Env, s: State, order: seq<int>, now: int)
    requires Inv(k, s)
    ensures var t := Resolve(k, s, order, now);
            && Inv(k, t) && Stable(s, t) && t.idCount == s.idCount && t.collisions <= s.collisions
            && (CollisionsOk(k, s) ==> CollisionsOk(k, t))
            && (Timed(s.info) && now > 0 ==> Timed(t.info))
    decreases |order|
  {
    if order != [] {
      hide Linked, CollisionsOk, Timed, Stable, ResolveOne;
      ResolveOneKeeps(k, s, order[0], now);
      var t := ResolveOne(k, s, order[0], now);
      ResolveKeeps(k, t, order[1..], now);
      StableTrans(s, t, Resolve(k, t, order[1..], now));
    }
  }

  // ----- the occupant of a contested tried cell

  /** SelectTriedCollision_ on the pending collision drawn at random. An empty cell reads as -1, and reading that key of
      the record map creates a record. */
  function SelectCollision(k: Env, s: State, id: int): (State, Option<Info>)
    requires Linked(k, s) && id in s.collisions
  {
    if id !in s.info then (s.(collisions := s.collisions - {id}), None)
    else
      var c := TriedCell(k, s.info[id].service);
      if c in s.triedCells then (s, Some(s.info[s.triedCells[c]]))
      else (SetInfo(s, -1, DEFAULT_INFO), Some(DEFAULT_INFO))
  }

  /** The contested cell is occupied, by a tried address that belongs there and is not the contender. */
  lemma SelectedIsTried(k: Env, s: State, id: int)
    requires Inv(k, s) && CollisionsOk(k, s) && id in s.collisions && id in s.info
    ensures var r := SelectCollision(k, s, id).1;
            && r.Some? && r.value.inTried
            && TriedCell(k, r.value.service) == TriedCell(k, s.info[id].service)
            && (!s.info[id].inTried ==> r.value.service.addr != s.info[id].service.addr)
  {
    var occupant := s.triedCells[TriedCell(k, s.info[id].service)];
    assert s.info[occupant].inTried;
    assert s.addr[s.info[occupant].service.addr] == occupant && s.addr[s.info[id].service.addr] == id;
  }

  // ----- a random sample of addresses

  function AddressOf(i: Info): Address {
    Address(i.service, i.services, i.time)
  }

  function SampleLimit(s: State): nat {
    var n := GETADDR_MAX_PCT * |s.random| / 100;
    if n > GETADDR_MAX then GETADDR_MAX else n
  }

  /** The loop of GetAddr_ from position n on, `rnd` being the random numbers drawn. */
  function Gather(k: Env, s: State, n: nat, limit: nat, rnd: nat -> nat, now: int, out: seq<Address>): (State, seq<Address>)
    requires Linked(k, s)
    decreases |s.random| - n
  {
    if n >= |s.random| || |out| >= limit then (s, out)
    else
      DrawnLinked(k, s, n, rnd);
      var t := Drawn(k, s, n, rnd);
      var i := t.info[t.random[n]];
      Gather(k, t, n + 1, limit, rnd, now, if IsTerrible(i, now) then out else out + [AddressOf(i)])
  }

  lemma SwapAll(k: Env, s: State, i: nat, j: nat)
    requires Inv(k, s) && i < |s.random| && j < |s.random|
    ensures Inv(k, Swap(s, i, j)) && Linked(k, Swap(s, i, j)) && Stable(s, Swap(s, i, j))
    ensures Timed(s.info) ==> Timed(Swap(s, i, j).info)
    ensures var t := Swap(s, i, j);
            t.idCount == s.idCount && t.collisions == s.collisions && |t.random| == |s.random| && t.random[i] in t.info
  {
    SwapKeeps(k, s, i, j);
    SwapRefs(s.info, Swap(s, i, j).info);
    assert Swap(s, i, j).random[i] in Swap(s, i, j).info;
    hide Linked, Counted, SameExcept, Referenced, Timed, RandomInverse;
  }

  lemma SwapRefs(info: map<int, Info>, after: map<int, Info>)
    requires SameExcept(info, after, {})
    ensures Referenced(info, {}) ==> Referenced(after, {})
    ensures Timed(info) ==> Timed(after)
    ensures History(info, after)
  {
    forall x | x in after ensures x in info && SameEntry(after[x], info[x]) {}
  }

  /** One round of the sampling loop. */
  function Drawn(k: Env, s: State, n: nat, rnd: nat -> nat): State
    requires Linked(k, s) && n < |s.random|
  {
    Swap(s, n, rnd(n) % (|s.random| - n) + n)
  }

  lemma DrawnLinked(k: Env, s: State, n: nat, rnd: nat -> nat)
    requires Linked(k, s) && n < |s.random|
    ensures var t := Drawn(k, s, n, rnd);
            Linked(k, t) && |t.random| == |s.random| && t.random[n] in t.info
  {
    hide Linked, Swap;
    SwapKeeps(k, s, n, rnd(n) % (|s.random| - n) + n);
  }

  lemma DrawnKeeps(k: Env, s: State, n: nat, rnd: nat -> nat)
    requires Inv(k, s) && n < |s.random|
    ensures var t := Drawn(k, s, n, rnd);
            && Inv(k, t) && Linked(k, t) && Stable(s, t) && t.idCount == s.idCount && t.collisions == s.collisions
            && |t.random| == |s.random| && t.random[n] in t.info
            && (Timed(s.info) ==> Timed(t.info))
  {
    hide Linked, Inv, Stable, Timed, Swap;
    SwapAll(k, s, n, rnd(n) % (|s.random| - n) + n);
  }

  lemma {:induction false} GatherKeeps(k: Env, s: State, n: nat, limit: nat, rnd: nat -> nat, now: int, out: seq<Address>)
    requires Inv(k, s) && Linked(k, s)
    ensures var t := Gather(k, s, n, limit, rnd, now, out).0;
            && Inv(k, t) && Stable(s, t) && t.idCount == s.idCount && t.collisions == s.collisions
            && (Timed(s.info) ==> Timed(t.info))
    decreases |s.random| - n
  {
    if n < |s.random| && |out| < limit {
      hide Linked, Inv, Stable, Timed, Drawn, IsTerrible;
      DrawnKeeps(k, s, n, rnd);
      var t := Drawn(k, s, n, rnd);
      var i := t.info[t.random[n]];
      var out' := if IsTerrible(i, now) then out else out + [AddressOf(i)];
      GatherKeeps(k, t, n + 1, limit, rnd, now, out');
      StableTrans(s, t, Gather(k, t, n + 1, limit, rnd, now, out').0);
    } else {
      NotedKeeps(k, s, s.collisions);
    }
  }

  // ----- what the sample contains

  /** The presentable addresses among the first n of the random order. */
  function Presentable(s: State, n: nat, now: int): seq<Address>
    requires n <= |s.random| && RandomInverse(s.info, s.random)
  {
    if n == 0 then []
    else
      var i := s.info[s.random[n - 1]];
      Presentable(s, n - 1, now) + (if IsTerrible(i, now) then [] else [AddressOf(i)])
  }

  lemma {:induction false} PresentableSwap(s: State, n: nat, now: int, i: nat, j: nat)
    requires RandomInverse(s.info, s.random) && n <= i < |s.random| && n <= j < |s.random|
    ensures RandomInverse(Swap(s, i, j).info, Swap(s, i, j).random)
    ensures Presentable(Swap(s, i, j), n, now) == Presentable(s, n, now)
  {
    SwapRandom(s, i, j);
    if n > 0 {
      PresentableSwap(s, n - 1, now, i, j);
      var t := Swap(s, i, j);
      assert t.random[n - 1] == s.random[n - 1];
      assert SameEntry(t.info[t.random[n - 1]], s.info[s.random[n - 1]]);
    }
  }

  lemma SwapPresents(k: Env, s: State, n: nat, p: nat, now: int)
    requires Linked(k, s) && n <= p < |s.random|
    ensures var t := Swap(s, n, p);
            && Linked(k, t) && |t.random| == |s.random| && t.random[n] in t.info
            && var i := t.info[t.random[n]];
               Presentable(t, n + 1, now) == Presentable(s, n, now) + (if IsTerrible(i, now) then [] else [AddressOf(i)])
  {
    hide IsTerrible, SameExcept, NewCellsOk, TriedOk, AddrsInverse, RefsOk, Swap;
    SwapKeeps(k, s, n, p);
    PresentableSwap(s, n, now, n, p);
  }

  lemma DrawnPresents(k: Env, s: State, n: nat, rnd: nat -> nat, now: int)
    requires Linked(k, s) && n < |s.random|
    ensures var t := Drawn(k, s, n, rnd);
            && Linked(k, t) && |t.random| == |s.random| && t.random[n] in t.info
            && var i := t.info[t.random[n]];
               Presentable(t, n + 1, now) == Presentable(s, n, now) + (if IsTerrible(i, now) then [] else [AddressOf(i)])
  {
    hide Linked, Presentable, Swap, RandomInverse;
    var p := rnd(n) % (|s.random| - n) + n;
    SwapPresents(k, s, n, p, now);
  }

  /** The loop of GetAddr_ collects the presentable addresses of a prefix of the order it leaves behind,
      stopping short of the end only when the limit is reached. */
  lemma {:induction false} GatherCollects(k: Env, s: State, n: nat, limit: nat, rnd: nat -> nat, now: int, out: seq<Address>)
      returns (m: nat)
    requires Linked(k, s) && n <= |s.random| && out == Presentable(s, n, now) && |out| <= limit
    ensures var (t, r) := Gather(k, s, n, limit, rnd, now, out);
            && Linked(k, t) && m <= |t.random| && |r| <= limit
            && r == Presentable(t, m, now)
            && (|r| < limit ==> m == |t.random|)
    decreases |s.random| - n
  {
    hide Linked, Drawn, IsTerrible, Presentable, RandomInverse;
    m := n;
    if n < |s.random| && |out| < limit {
      DrawnPresents(k, s, n, rnd, now);
      var t := Drawn(k, s, n, rnd);
      var i := t.info[t.random[n]];
      m := GatherCollects(k, t, n + 1, limit, rnd, now, if IsTerrible(i, now) then out else out + [AddressOf(i)]);
    }
  }

  lemma {:induction false} PresentableMember(k: Env, s: State, n: nat, now: int, a: Address)
    requires Linked(k, s) && n <= |s.random|
    ensures a in Presentable(s, n, now) <==>
            exists j :: 0 <= j < n && !IsTerrible(s.info[s.random[j]], now) && a == AddressOf(s.info[s.random[j]])
  {
    if n > 0 {
      PresentableMember(k, s, n - 1, now, a);
      var i := s.info[s.random[n - 1]];
      if a in Presentable(s, n, now) && a !in Presentable(s, n - 1, now) {
        assert a == AddressOf(i) && !IsTerrible(i, now);
      }
    }
  }

  ghost predicate NoAddrTwice(r: seq<Address>) {
    forall x, y :: 0 <= x < y < |r| ==> r[x].service.addr != r[y].service.addr
  }

  lemma {:induction false} PresentableDistinct(k: Env, s: State, n: nat, now: int)
    requires Linked(k, s) && n <= |s.random|
    ensures NoAddrTwice(Presentable(s, n, now))
  {
    if n > 0 {
      PresentableDistinct(k, s, n - 1, now);
      var prev := Presentable(s, n - 1, now);
      var i := s.info[s.random[n - 1]];
      forall x | 0 <= x < |prev| ensures prev[x].service.addr != i.service.addr {
        PresentableMember(k, s, n - 1, now, prev[x]);
        var j :| 0 <= j < n - 1 && !IsTerrible(s.info[s.random[j]], now) && prev[x] == AddressOf(s.info[s.random[j]]);
        var idJ, idN := s.random[j], s.random[n - 1];
        assert s.info[idJ].randomPos == j && s.info[idN].randomPos == n - 1;
        assert s.addr[s.info[idJ].service.addr] == idJ && s.addr[s.info[idN].service.addr] == idN;
      }
      var r := Presentable(s, n, now);
      forall x, y | 0 <= x < y < |r| ensures r[x].service.addr != r[y].service.addr {
        assert r[x] == prev[x];
        if y < |prev| {
          assert r[y] == prev[y] && prev[x].service.addr != prev[y].service.addr;
        } else {
          assert r[y] == AddressOf(i) && prev[x].service.addr != i.service.addr;
        }
      }
    }
  }

  /** A sample never exceeds its limit, names no address twice and nothing terrible, and when it stays
      below the limit it names every presentable address. */
  lemma SampleIsFair(k: Env, s: State, rnd: nat -> nat, now: int)
    requires Inv(k, s)
    ensures var (t, r) := Gather(k, s, 0, SampleLimit(s), rnd, now, []);
            && |r| <= SampleLimit(s)
            && NoAddrTwice(r)
            && (forall a :: a in r ==> exists id :: id in t.info && !IsTerrible(t.info[id], now) && a == AddressOf(t.info[id]))
            && (|r| < SampleLimit(s) ==>
                  forall id :: id in t.info && !IsTerrible(t.info[id], now) ==> AddressOf(t.info[id]) in r)
  {
    var m := GatherCollects(k, s, 0, SampleLimit(s), rnd, now, []);
    var (t, r) := Gather(k, s, 0, SampleLimit(s), rnd, now, []);
    hide Gather, IsTerrible, Linked, Inv;
    PresentableDistinct(k, t, m, now);
    PresentableAreKnown(k, t, m, now);
  }

  lemma PresentableAreKnown(k: Env, s: State, n: nat, now: int)
    requires Linked(k, s) && n <= |s.random|
    ensures var r := Presentable(s, n, now);
            && (forall a :: a in r ==> exists id :: id in s.info && !IsTerrible(s.info[id], now) && a == AddressOf(s.info[id]))
            && (n == |s.random| ==> forall id :: id in s.info && !IsTerrible(s.info[id], now) ==> AddressOf(s.info[id]) in r)
  {
    var r := Presentable(s, n, now);
    forall a | a in r ensures exists id :: id in s.info && !IsTerrible(s.info[id], now) && a == AddressOf(s.info[id]) {
      PresentableMember(k, s, n, now, a);
      var j :| 0 <= j < n && !IsTerrible(s.info[s.random[j]], now) && a == AddressOf(s.info[s.random[j]]);
      var id := s.random[j];
      assert id in s.info;
    }
    if n == |s.random| {
      forall id | id in s.info && !IsTerrible(s.info[id], now) ensures AddressOf(s.info[id]) in r {
        PresentableMember(k, s, n, now, AddressOf(s.info[id]));
        var j := s.info[id].randomPos;
        assert s.random[j] == id;
      }
    }
  }

  // ----- whole runs

  datatype Op =
    | AddOp(address: Address, source: NetAddr, penalty: int, now: int, rnd: nat)
    | GoodOp(service: Service, testBeforeEvict: bool, now: int)
    | AttemptOp(service: Service, countFailure: bool, now: int)
    | ConnectedOp(service: Service, now: int)
    | SetServicesOp(service: Service, services: bv64)
    | ResolveOp(order: seq<int>, now: int)
    | SelectCollisionOp(id: int)
    | GetAddrOp(draws: nat -> nat, now: int)

  /** All that holds between operations. */
  ghost predicate Sound(k: Env, s: State) {
    Inv(k, s) && CollisionsOk(k, s) && 0 <= s.idCount
  }

  function Step(k: Env, s: State, op: Op): State
    requires Sound(k, s)
  {
    match op
    case AddOp(a, source, penalty, now, rnd) => Add(k, s, a, source, penalty, now, rnd).0
    case GoodOp(service, test, now) => Good(k, s, service, test, now)
    case AttemptOp(service, count, now) => Attempt(k, s, service, count, now)
    case ConnectedOp(service, now) => Connected(k, s, service, now)
    case SetServicesOp(service, services) => SetServices(k, s, service, services)
    case ResolveOp(order, now) => Resolve(k, s, order, now)
    case SelectCollisionOp(id) => if id in s.collisions then SelectCollision(k, s, id).0 else s
    case GetAddrOp(rnd, now) => Gather(k, s, 0, SampleLimit(s), rnd, now, []).0
  }

  /** The clock never reads zero or less when a connection succeeds or is attempted. */
  predicate ClockRuns(op: Op) {
    match op
    case GoodOp(_, _, now) => now > 0
    case AttemptOp(_, _, now) => now >= 0
    case ResolveOp(_, now) => now > 0
    case _ => true
  }

  lemma TouchStep(k: Env, s: State, op: Op)
    requires Sound(k, s) && (op.AttemptOp? || op.ConnectedOp? || op.SetServicesOp?)
    ensures var t := Step(k, s, op);
            && Inv(k, t) && Stable(s, t) && t.idCount == s.idCount && t.collisions == s.collisions
            && (Timed(s.info) && ClockRuns(op) ==> Timed(t.info))
  {
    var t := Step(k, s, op);
    if Knows(k, s, op.service) {
      var id := s.addr[op.service.addr];
      assert t == SetInfo(s, id, t.info[id]);
      TouchAll(k, s, id, t.info[id]);
    }
  }

  lemma StepKeeps(k: Env, s: State, op: Op)
    requires Sound(k, s)
    ensures var t := Step(k, s, op);
            && Sound(k, t) && Stable(s, t)
            && (Timed(s.info) && ClockRuns(op) ==> Timed(t.info))
  {
    assert Linked(k, s);
    hide Inv, Stable, Timed, CollisionsOk, Linked, Add, Good, Attempt, Connected, SetServices, Resolve, Gather;
    var t := Step(k, s, op);
    match op
    case AddOp(a, source, penalty, now, rnd) =>
      AddKeeps(k, s, a, source, penalty, now, rnd);
      StableCollisions(k, s, t);
    case GoodOp(service, test, now) =>
      GoodKeeps(k, s, service, test, now);
      GoodCollisions(k, s, service, test, now);
    case ResolveOp(order, now) =>
      ResolveKeeps(k, s, order, now);
    case SelectCollisionOp(id) =>
      NotedKeeps(k, s, s.collisions);
      NotedKeeps(k, s, s.collisions - {id});
      StableCollisions(k, s, s.(collisions := s.collisions - {id}));
    case GetAddrOp(rnd, now) =>
      GatherKeeps(k, s, 0, SampleLimit(s), rnd, now, []);
      StableCollisions(k, s, t);
    case _ =>
      TouchStep(k, s, op);
      StableCollisions(k, s, t);
  }

  function Run(k: Env, s: State, ops: seq<Op>): State
    requires Sound(k, s)
    decreases |ops|
  {
    if ops == [] then s
    else (StepKeeps(k, s, ops[0]); Run(k, Step(k, s, ops[0]), ops[1..]))
  }

  lemma EmptyIsSound(k: Env)
    ensures Sound(k, EMPTY) && Timed(EMPTY.info)
  {
    assert NewIds(EMPTY.info) == {} && TriedIds(EMPTY.info) == {};
  }

  lemma {:induction false} RunKeeps(k: Env, s: State, ops: seq<Op>)
    requires Sound(k, s)
    ensures var t := Run(k, s, ops);
            && Sound(k, t) && Stable(s, t)
            && (Timed(s.info) && (forall i :: 0 <= i < |ops| ==> ClockRuns(ops[i])) ==> Timed(t.info))
    decreases |ops|
  {
    hide Sound, Stable, Timed, Step;
    if ops != [] {
      StepKeeps(k, s, ops[0]);
      var t := Step(k, s, ops[0]);
      RunKeeps(k, t, ops[1..]);
      StableTrans(s, t, Run(k, t, ops[1..]));
    } else {
      StableSame(s);
    }
  }

  lemma StableSame(s: State)
    ensures Stable(s, s)
  {
  }
}
