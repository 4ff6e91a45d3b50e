/** Clearing the tables: the pending collisions stay, and what becomes of the lookup that relies on them. */
module AddrClear {
  import opened AddrTable
  import opened AddrTableLemmas
  import opened AddrMoves
  import opened AddrOps
  import opened AddrRuns

  /** Clear resets everything but the pending collisions. */
  function Clear(s: State): State {
    EMPTY.(collisions := s.collisions)
  }

  lemma ClearKeeps(k: Env, s: State)
    ensures Inv(k, Clear(s)) && (s.collisions == {} ==> Sound(k, Clear(s)))
  {
    EmptyIsSound(k);
  }

  /** The cell that the lookup for a pending collision reads is occupied. */
  ghost predicate LookupSafe(k: Env, s: State, id: int) {
    id in s.collisions && id in s.info ==> TriedCell(k, s.info[id].service) in s.triedCells
  }

  /** The lookup leaves the tables consistent exactly if the cell is occupied: otherwise it adds a record that is in no
      order, table or index. */
  lemma LookupKeepsIff(k: Env, s: State, id: int)
    requires Inv(k, s) && id in s.collisions
    ensures Inv(k, SelectCollision(k, s, id).0) <==> LookupSafe(k, s, id)
  {
    var t := SelectCollision(k, s, id).0;
    if id !in s.info || LookupSafe(k, s, id) {
      hide AddrsInverse, RandomInverse, NewCellsOk, TriedOk, RefsOk, IdsOk, Referenced, TriedCell;
      assert t.info == s.info;
    } else {
      assert -1 in t.info && t.info[-1].randomPos == -1;
    }
  }

  /** With no collision pending, the lookup is safe at the end of every run after Clear. */
  lemma ClearedRunSafe(k: Env, s: State, ops: seq<Op>, id: int)
    requires s.collisions == {}
    ensures Sound(k, Clear(s)) && LookupSafe(k, Run(k, Clear(s), ops), id)
  {
    hide Run, Inv;
    ClearKeeps(k, s);
    RunKeeps(k, Clear(s), ops);
  }

  // ----- announcements after Clear

  /** What goes with an announced address: its source, the penalty, the clock and the random draw. */
  datatype Hearing = Hearing(source: NetAddr, penalty: int, now: int, rnd: nat)

  function Announce(k: Env, s: State, supply: seq<Address>, h: Hearing): (t: State)
    requires Inv(k, s) && 0 <= s.idCount
    ensures Inv(k, t) && 0 <= t.idCount
    decreases |supply|
  {
    if supply == [] then s
    else
      var u := Announce(k, s, supply[..|supply| - 1], h);
      AddKeeps(k, u, supply[|supply| - 1], h.source, h.penalty, h.now, h.rnd);
      Add(k, u, supply[|supply| - 1], h.source, h.penalty, h.now, h.rnd).0
  }

  /** Different routable addresses. */
  ghost predicate Distinct(k: Env, supply: seq<Address>) {
    && (forall i :: 0 <= i < |supply| ==> k.isRoutable(supply[i].service.addr))
    && (forall i, j :: 0 <= i < j < |supply| ==> supply[i].service.addr != supply[j].service.addr)
  }

  function AddrsOf(supply: seq<Address>): set<NetAddr> {
    set i | 0 <= i < |supply| :: supply[i].service.addr
  }

  function AnnouncedCells(k: Env, supply: seq<Address>, source: NetAddr): set<Cell> {
    set i | 0 <= i < |supply| :: AnnouncedCell(k, supply[i].service, source)
  }

  /** No record is lost or changes sides. */
  ghost predicate KeepsRecords(s: State, t: State) {
    forall id :: id in s.info ==>
      id in t.info && t.info[id].service == s.info[id].service && t.info[id].inTried == s.info[id].inTried
  }

  ghost predicate Untried(s: State, id: int, service: Service) {
    id in s.info && s.info[id].service == service && !s.info[id].inTried
  }

  /** An address not heard of before: it gets the next number, and its cell if nobody holds that. */
  lemma AddUnknown(k: Env, s: State, a: Address, h: Hearing)
    requires Inv(k, s) && 0 <= s.idCount && k.isRoutable(a.service.addr) && a.service.addr !in s.addr
    ensures var t := Add(k, s, a, h.source, h.penalty, h.now, h.rnd).0;
            var c := AnnouncedCell(k, a.service, h.source);
            && t.idCount == s.idCount + 1 && t.triedCells == s.triedCells && t.collisions == s.collisions
            && t.addr.Keys <= s.addr.Keys + {a.service.addr} && t.newCells.Keys <= s.newCells.Keys + {c}
            && (c !in s.newCells ==> KeepsRecords(s, t) && Untried(t, s.idCount, a.service))
  {
    hide Inv, Linked, Referenced, Counted, History, Introduced, Place, AnnouncedCell, IsTerrible;
    var penalty := Penalty(a, h.source, h.penalty);
    IntroducedKeeps(k, s, a, h.source, penalty);
    NotYetKnown(k, s);
    IntroducedShape(s, a, h.source, penalty);
    var u := Introduced(s, a, h.source, penalty);
    PlaceKeeps(k, u, s.idCount, h.source, h.now);
    PlaceShape(k, u, s.idCount, h.source, h.now);
  }

  lemma NotYetKnown(k: Env, s: State)
    requires Inv(k, s)
    ensures s.idCount !in s.info
  {
  }

  lemma IntroducedShape(s: State, a: Address, source: NetAddr, penalty: int)
    ensures var t := Introduced(s, a, source, penalty);
            && t.addr.Keys == s.addr.Keys + {a.service.addr} && t.newCells == s.newCells
            && Untried(t, s.idCount, a.service) && (s.idCount !in s.info ==> KeepsRecords(s, t))
  {
  }

  lemma PlaceShape(k: Env, s: State, id: int, source: NetAddr, now: int)
    requires Linked(k, s) && id in s.info
    ensures var t := Place(k, s, id, source, now);
            var c := AnnouncedCell(k, s.info[id].service, source);
            && t.addr.Keys <= s.addr.Keys && t.newCells.Keys <= s.newCells.Keys + {c}
            && (c !in s.newCells ==> KeepsRecords(s, t))
  {
    hide NewCellsOk, TriedOk, AddrsInverse, RefsOk, IdsOk;
  }

  lemma {:induction false} AnnounceTracks(k: Env, s: State, supply: seq<Address>, h: Hearing)
    requires Inv(k, Clear(s)) && Distinct(k, supply)
    ensures var t := Announce(k, Clear(s), supply, h);
            && t.idCount == |supply| && t.triedCells == map[] && t.collisions == s.collisions
            && t.addr.Keys <= AddrsOf(supply) && t.newCells.Keys <= AnnouncedCells(k, supply, h.source)
    decreases |supply|
  {
    hide Inv, Add, AnnouncedCell;
    if supply != [] {
      var n := |supply| - 1;
      AnnounceTracks(k, s, supply[..n], h);
      var u := Announce(k, Clear(s), supply[..n], h);
      NotAmong(k, supply, h.source);
      AddUnknown(k, u, supply[n], h);
    }
  }

  lemma NotAmong(k: Env, supply: seq<Address>, source: NetAddr)
    requires supply != [] && Distinct(k, supply)
    ensures var n := |supply| - 1;
            && Distinct(k, supply[..n]) && supply[n].service.addr !in AddrsOf(supply[..n])
            && AddrsOf(supply) == AddrsOf(supply[..n]) + {supply[n].service.addr}
            && AnnouncedCells(k, supply, source)
               == AnnouncedCells(k, supply[..n], source) + {AnnouncedCell(k, supply[n].service, source)}
  {
    hide AnnouncedCell;
    var n := |supply| - 1;
    assert forall i :: 0 <= i < n ==> supply[..n][i] == supply[i];
    forall x | x in AddrsOf(supply) ensures x in AddrsOf(supply[..n]) + {supply[n].service.addr} {
      var i :| 0 <= i < |supply| && x == supply[i].service.addr;
      assert i < n ==> supply[..n][i].service.addr == x;
    }
    forall x | x in AnnouncedCells(k, supply, source)
      ensures x in AnnouncedCells(k, supply[..n], source) + {AnnouncedCell(k, supply[n].service, source)}
    {
      var i :| 0 <= i < |supply| && x == AnnouncedCell(k, supply[i].service, source);
      assert i < n ==> AnnouncedCell(k, supply[..n][i].service, source) == x;
    }
  }

  /** Addresses of which the last one finds its cell free of the others. */
  ghost predicate Supplied(k: Env, supply: seq<Address>, source: NetAddr) {
    && supply != [] && Distinct(k, supply)
    && forall i :: 0 <= i < |supply| - 1 ==>
         AnnouncedCell(k, supply[i].service, source) != AnnouncedCell(k, supply[|supply| - 1].service, source)
  }

  /** A collision left pending by Clear comes to name an address announced afterwards, and the cell that the lookup
      reads for it is empty. */
  lemma StaleCollision(k: Env, s: State, id: int, supply: seq<Address>, h: Hearing)
    requires id in s.collisions && Supplied(k, supply, h.source) && id == |supply| - 1
    ensures Inv(k, Clear(s))
    ensures var t := Announce(k, Clear(s), supply, h);
            && id in t.collisions && id in t.info && t.info[id].service == supply[id].service
            && TriedCell(k, t.info[id].service) !in t.triedCells && !LookupSafe(k, t, id)
  {
    hide Inv, Add, AnnouncedCell, TriedCell;
    ClearKeeps(k, s);
    AnnounceTracks(k, s, supply[..id], h);
    var u := Announce(k, Clear(s), supply[..id], h);
    NotAmong(k, supply, h.source);
    assert forall i :: 0 <= i < id ==> supply[..id][i] == supply[i];
    AddUnknown(k, u, supply[id], h);
  }

  /** The lookup is safe after Clear, whatever is announced. */
  ghost predicate ClearSafe(k: Env, s: State, h: Hearing)
    requires Inv(k, Clear(s))
  {
    forall id, supply :: LookupSafe(k, Announce(k, Clear(s), supply, h), id)
  }

  /** Where addresses can be announced at all, the lookup is safe after Clear if and only if no collision was pending. */
  lemma ClearSafeIff(k: Env, s: State, h: Hearing)
    requires forall id :: id in s.collisions ==> id >= 0 && exists supply :: Supplied(k, supply, h.source) && |supply| == id + 1
    ensures Inv(k, Clear(s))
    ensures ClearSafe(k, s, h) <==> s.collisions == {}
  {
    hide Inv, Add, AnnouncedCell, TriedCell, Supplied, Announce;
    ClearKeeps(k, s);
    if s.collisions == {} {
      forall id, supply ensures LookupSafe(k, Announce(k, Clear(s), supply, h), id) {
        AnnounceCollisions(k, Clear(s), supply, h);
      }
    } else {
      HasMember(s.collisions);
      var id :| id in s.collisions;
      var supply :| Supplied(k, supply, h.source) && |supply| == id + 1;
      StaleCollision(k, s, id, supply, h);
      assert !LookupSafe(k, Announce(k, Clear(s), supply, h), id);
    }
  }

  lemma {:induction false} AnnounceCollisions(k: Env, s: State, supply: seq<Address>, h: Hearing)
    requires Inv(k, s) && 0 <= s.idCount
    ensures Announce(k, s, supply, h).collisions == s.collisions
    decreases |supply|
  {
    hide Inv, Add;
    if supply != [] {
      var u := Announce(k, s, supply[..|supply| - 1], h);
      AnnounceCollisions(k, s, supply[..|supply| - 1], h);
      AddKeeps(k, u, supply[|supply| - 1], h.source, h.penalty, h.now, h.rnd);
    }
  }

  // ----- a run that leaves a collision pending

  lemma EmptyCell(k: Env, s: State, id: int)
    requires Inv(k, s) && id in s.info && !s.info[id].inTried && TriedCell(k, s.info[id].service) !in s.triedCells
    ensures var t := MakeTried(k, s, id);
            && TriedCell(k, s.info[id].service) in t.triedCells
            && forall x :: x in s.info && x != id ==> x in t.info && t.info[x] == s.info[x]
  {
    hide Linked, Referenced, Counted, TriedCell, NewCell;
    RemovedKeeps(k, s, id);
  }

  /** An untried address succeeds, and its tried cell is free: it moves there. */
  lemma GoodEnters(k: Env, s: State, id: int, service: Service, time: int)
    requires Inv(k, s) && Untried(s, id, service) && TriedCell(k, service) !in s.triedCells
    ensures var t := Good(k, s, service, true, time);
            && TriedCell(k, service) in t.triedCells && t.collisions == s.collisions
            && forall x :: x in s.info && x != id ==> x in t.info && t.info[x] == s.info[x]
  {
    KnownAs(k, s, id, service);
    hide Linked, Inv, Held, TriedCell, MakeTried;
    GoodFindsBucket(k, s, service);
    MarkedKeeps(k, s, service, time);
    var t := Marked(k, s, service, time);
    EmptyCell(k, t, id);
    MakeTriedKeeps(k, t, id);
  }

  lemma KnownAs(k: Env, s: State, id: int, service: Service)
    requires Inv(k, s) && id in s.info && s.info[id].service == service
    ensures Linked(k, s) && Knows(k, s, service) && s.addr[service.addr] == id
  {
  }

  /** An untried address succeeds, and its tried cell is taken: the collision is noted. */
  lemma GoodCollides(k: Env, s: State, id: int, service: Service, time: int)
    requires Inv(k, s) && Untried(s, id, service) && TriedCell(k, service) in s.triedCells
    requires |s.collisions| < SET_TRIED_COLLISION_SIZE
    ensures Good(k, s, service, true, time).collisions == s.collisions + {id}
  {
    KnownAs(k, s, id, service);
    hide Linked, Inv, Held, TriedCell, MakeTried;
    GoodFindsBucket(k, s, service);
    MarkedKeeps(k, s, service, time);
  }

  function CollidingRun(a: Address, b: Address, h: Hearing): seq<Op> {
    [AddOp(a, h.source, h.penalty, h.now, h.rnd), AddOp(b, h.source, h.penalty, h.now, h.rnd),
     GoodOp(b.service, true, h.now), GoodOp(a.service, true, h.now)]
  }

  function Announced(k: Env, s: State, a: Address, h: Hearing): State
    requires Inv(k, s) && 0 <= s.idCount
  {
    Add(k, s, a, h.source, h.penalty, h.now, h.rnd).0
  }

  /** Only this address is known, and it waits to be tried. */
  ghost predicate OneUntried(k: Env, s: State, a: Address, source: NetAddr) {
    && Inv(k, s) && s.idCount == 1 && s.triedCells == map[] && s.collisions == {} && Untried(s, 0, a.service)
    && s.addr.Keys <= {a.service.addr} && s.newCells.Keys <= {AnnouncedCell(k, a.service, source)}
  }

  lemma FirstAnnounced(k: Env, a: Address, h: Hearing)
    requires k.isRoutable(a.service.addr)
    ensures Inv(k, EMPTY) && OneUntried(k, Announced(k, EMPTY, a, h), a, h.source)
  {
    EmptyIsSound(k);
    hide Inv, AnnouncedCell, Add, KeepsRecords, Untried, Stable, Timed;
    AddUnknown(k, EMPTY, a, h);
    AddKeeps(k, EMPTY, a, h.source, h.penalty, h.now, h.rnd);
  }

  lemma SecondAnnounced(k: Env, s: State, a: Address, b: Address, h: Hearing)
    requires Supplied(k, [a, b], h.source) && OneUntried(k, s, a, h.source)
    ensures var t := Announced(k, s, b, h);
            && Inv(k, t) && t.triedCells == map[] && t.collisions == {}
            && Untried(t, 0, a.service) && Untried(t, 1, b.service)
  {
    assert [a, b][0] == a && [a, b][1] == b;
    hide Inv, AnnouncedCell, Add, KeepsRecords, Untried, Stable, Timed;
    AddUnknown(k, s, b, h);
    AddKeeps(k, s, b, h.source, h.penalty, h.now, h.rnd);
    SecondUntried(s, Announced(k, s, b, h), 0, a.service);
  }

  /** Both succeed. */
  lemma SecondPending(k: Env, s: State, a: Service, b: Service, time: int)
    requires Inv(k, s) && s.triedCells == map[] && s.collisions == {} && Untried(s, 0, a) && Untried(s, 1, b)
    requires TriedCell(k, a) == TriedCell(k, b)
    ensures Inv(k, Good(k, s, b, true, time)) && Good(k, Good(k, s, b, true, time), a, true, time).collisions == {0}
  {
    hide Inv, TriedCell, Good, Untried, Stable, Timed;
    GoodEnters(k, s, 1, b, time);
    GoodKeeps(k, s, b, true, time);
    var t := Good(k, s, b, true, time);
    StillUntried(s, t, 0, 1, a);
    GoodCollides(k, t, 0, a, time);
  }

  /** Two addresses with one tried cell: the second to succeed is left pending. */
  lemma CollisionReached(k: Env, a: Address, b: Address, h: Hearing)
    requires Supplied(k, [a, b], h.source) && TriedCell(k, a.service) == TriedCell(k, b.service)
    ensures Sound(k, EMPTY) && Run(k, EMPTY, CollidingRun(a, b, h)).collisions == {0}
  {
    assert [a, b][0] == a;
    hide Sound, Inv, TriedCell, Add, Good, Untried, Run, OneUntried, AnnouncedCell;
    FourSteps(k, CollidingRun(a, b, h));
    FirstAnnounced(k, a, h);
    var s := Announced(k, EMPTY, a, h);
    SecondAnnounced(k, s, a, b, h);
    ReadyForMore(k, s, a, h.source);
    SecondPending(k, Announced(k, s, b, h), a.service, b.service, h.now);
  }

  lemma ReadyForMore(k: Env, s: State, a: Address, source: NetAddr)
    requires OneUntried(k, s, a, source)
    ensures Inv(k, s) && 0 <= s.idCount
  {
  }

  lemma SecondUntried(s: State, t: State, id: int, service: Service)
    requires KeepsRecords(s, t) && Untried(s, id, service)
    ensures Untried(t, id, service)
  {
  }

  lemma StillUntried(s: State, t: State, id: int, other: int, service: Service)
    requires id != other && Untried(s, id, service)
    requires forall x :: x in s.info && x != other ==> x in t.info && t.info[x] == s.info[x]
    ensures Untried(t, id, service)
  {
  }

  lemma FourSteps(k: Env, ops: seq<Op>)
    requires |ops| == 4
    ensures Sound(k, EMPTY) && Sound(k, Step(k, EMPTY, ops[0]))
    ensures Sound(k, Step(k, Step(k, EMPTY, ops[0]), ops[1]))
    ensures Sound(k, Step(k, Step(k, Step(k, EMPTY, ops[0]), ops[1]), ops[2]))
    ensures Run(k, EMPTY, ops) == Step(k, Step(k, Step(k, Step(k, EMPTY, ops[0]), ops[1]), ops[2]), ops[3])
  {
    EmptyIsSound(k);
    hide Sound, Step, Stable, Timed;
    var s1 := Step(k, EMPTY, ops[0]);
    StepKeeps(k, EMPTY, ops[0]);
    var s2 := Step(k, s1, ops[1]);
    StepKeeps(k, s1, ops[1]);
    var s3 := Step(k, s2, ops[2]);
    StepKeeps(k, s2, ops[2]);
    StepKeeps(k, s3, ops[3]);
    var s4 := Step(k, s3, ops[3]);
    assert ops[1..][0] == ops[1] && ops[1..][1..] == ops[2..] && ops[2..][0] == ops[2] && ops[2..][1..] == ops[3..];
    assert ops[3..][0] == ops[3] && ops[3..][1..] == [];
    assert Run(k, s4, []) == s4;
    assert Run(k, s3, ops[3..]) == s4;
    assert Run(k, s2, ops[2..]) == s4;
    assert Run(k, s1, ops[1..]) == s4;
  }

  /** From the empty tables: the colliding run, Clear, and one announcement lead to a lookup of an empty cell, which leaves
      the tables inconsistent. */
  lemma StaleCollisionReached(k: Env, a: Address, b: Address, c: Address, h: Hearing)
    requires Supplied(k, [a, b], h.source) && TriedCell(k, a.service) == TriedCell(k, b.service)
    requires k.isRoutable(c.service.addr)
    ensures Sound(k, EMPTY)
    ensures var s := Run(k, EMPTY, CollidingRun(a, b, h));
            && Inv(k, Clear(s))
            && (var t := Add(k, Clear(s), c, h.source, h.penalty, h.now, h.rnd).0;
                && 0 in t.collisions && 0 in t.info && TriedCell(k, t.info[0].service) !in t.triedCells
                && Inv(k, t) && !Inv(k, SelectCollision(k, t, 0).0))
  {
    hide Inv, TriedCell, AnnouncedCell, Add;
    CollisionReached(k, a, b, h);
    var s := Run(k, EMPTY, CollidingRun(a, b, h));
    StaleCollision(k, s, 0, [c], h);
    assert [c][..0] == [];
    assert Announce(k, Clear(s), [], h) == Clear(s);
    LookupKeepsIff(k, Announce(k, Clear(s), [c], h), 0);
  }

  /** There are such surroundings: every tried cell is the same, and new cells go by the address. */
  function OneTriedCell(): (k: Env) {
    Env((p: Preimage) => if p.OfPosition? && p.isNew then p.service.addr.ip else 0, 0, _ => 0, _ => true, _ => true)
  }

  lemma OneTriedCellSupplies(x: nat, y: nat, h: Hearing)
    requires x < y < BUCKET_SIZE
    ensures var (a, b) := (Address(Service(NetAddr(x), 0), 0, h.now), Address(Service(NetAddr(y), 0), 0, h.now));
            var k := OneTriedCell();
            Supplied(k, [a, b], h.source) && TriedCell(k, a.service) == TriedCell(k, b.service)
  {
  }
}
