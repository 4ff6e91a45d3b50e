/** The address manager's tables as one value, the operations on them, and the consistency they keep. */
module AddrTable {

  const TRIED_BUCKETS_PER_GROUP: nat := 8
  const TRIED_BUCKET_COUNT: nat := 256
  const NEW_BUCKETS_PER_SOURCE_GROUP: nat := 64
  const NEW_BUCKET_COUNT: nat := 1024
  const BUCKET_SIZE: nat := 64
  const NEW_BUCKETS_PER_ADDRESS: nat := 8
  const HORIZON_DAYS := 30
  const RETRIES := 3
  const MAX_FAILURES := 10
  const MIN_FAIL_DAYS := 7
  const REPLACEMENT_HOURS := 4
  const GETADDR_MAX_PCT := 23
  const GETADDR_MAX := 2500
  const SET_TRIED_COLLISION_SIZE := 10

  datatype NetAddr = NetAddr(ip: nat)
  datatype Service = Service(addr: NetAddr, port: nat)
  datatype Address = Address(service: Service, services: bv64, time: int)

  /** Everything known about one address. */
  datatype Info = Info(
    service: Service, services: bv64, time: int, source: NetAddr,
    lastTry: int, lastCountAttempt: int, lastSuccess: int, attempts: int,
    refCount: int, inTried: bool, randomPos: int)

  function NewInfo(a: Address, source: NetAddr): Info {
    Info(a.service, a.services, a.time, source, 0, 0, 0, 0, 0, false, -1)
  }

  /** What reading a missing key of the record map leaves there. */
  const DEFAULT_INFO := Info(Service(NetAddr(0), 0), 0, 100000000, NetAddr(0), 0, 0, 0, 0, 0, false, -1)

  /** What is fed to the hash function; its digests are not interpreted. */
  datatype Preimage =
    | OfService(key: nat, service: Service)
    | OfGroupSlot(key: nat, group: nat, slot: nat)
    | OfGroups(key: nat, group: nat, sourceGroup: nat)
    | OfPosition(key: nat, isNew: bool, bucket: nat, service: Service)

  /** The surroundings of the tables: the hash, its secret key, and address classification. */
  datatype Env = Env(
    hash: Preimage -> nat, key: nat, group: NetAddr -> nat,
    isRoutable: NetAddr -> bool, isValid: NetAddr -> bool)

  datatype Cell = Cell(bucket: nat, pos: nat)

  function Position(k: Env, isNew: bool, bucket: nat, s: Service): nat {
    k.hash(OfPosition(k.key, isNew, bucket, s)) % BUCKET_SIZE
  }

  function TriedBucket(k: Env, s: Service): nat {
    var hash1 := k.hash(OfService(k.key, s));
    k.hash(OfGroupSlot(k.key, k.group(s.addr), hash1 % TRIED_BUCKETS_PER_GROUP)) % TRIED_BUCKET_COUNT
  }

  function NewBucket(k: Env, s: Service, source: NetAddr): nat {
    var hash1 := k.hash(OfGroups(k.key, k.group(s.addr), k.group(source)));
    k.hash(OfGroupSlot(k.key, k.group(source), hash1 % NEW_BUCKETS_PER_SOURCE_GROUP)) % NEW_BUCKET_COUNT
  }

  function TriedCell(k: Env, s: Service): Cell {
    var b := TriedBucket(k, s);
    Cell(b, Position(k, false, b, s))
  }

  function NewCell(k: Env, s: Service, bucket: nat): Cell {
    Cell(bucket, Position(k, true, bucket, s))
  }

  predicate IsTerrible(i: Info, now: int) {
    if i.lastTry != 0 && i.lastTry >= now - 60 then false
    else if i.time > now + 10 * 60 then true
    else if i.time == 0 || now - i.time > HORIZON_DAYS * 24 * 60 * 60 then true
    else if i.lastSuccess == 0 && i.attempts >= RETRIES then true
    else now - i.lastSuccess > MIN_FAIL_DAYS * 24 * 60 * 60 && i.attempts >= MAX_FAILURES
  }

  // ----- the tables

  type Cells = map<Cell, int>

  /** An empty cell of a bucket table is one that is absent from the map. */
  datatype State = State(
    idCount: int, info: map<int, Info>, addr: map<NetAddr, int>, random: seq<int>,
    newCells: Cells, triedCells: Cells, nNew: int, nTried: int,
    lastGood: int, collisions: set<int>)

  const EMPTY := State(0, map[], map[], [], map[], map[], 0, 0, 1, {})

  function CellsOf(cells: Cells, id: int): set<Cell> {
    set c | c in cells && cells[c] == id
  }

  function NewIds(info: map<int, Info>): set<int> {
    set id | id in info && !info[id].inTried
  }

  function TriedIds(info: map<int, Info>): set<int> {
    set id | id in info && info[id].inTried
  }

  // ----- consistency

  ghost predicate AddrsInverse(info: map<int, Info>, addr: map<NetAddr, int>) {
    && (forall id :: id in info ==> info[id].service.addr in addr && addr[info[id].service.addr] == id)
    && (forall a :: a in addr ==> addr[a] in info && info[addr[a]].service.addr == a)
  }

  ghost predicate RandomInverse(info: map<int, Info>, random: seq<int>) {
    && (forall id :: id in info ==> 0 <= info[id].randomPos < |random| && random[info[id].randomPos] == id)
    && (forall i :: 0 <= i < |random| ==> random[i] in info && info[random[i]].randomPos == i)
  }

  /** Every occupied new cell is at the hashed position of a known, not yet tried address. */
  ghost predicate NewCellsOk(k: Env, info: map<int, Info>, cells: Cells) {
    forall c :: c in cells ==>
      && cells[c] in info && !info[cells[c]].inTried
      && c.bucket < NEW_BUCKET_COUNT && c == NewCell(k, info[cells[c]].service, c.bucket)
  }

  /** Tried addresses and occupied tried cells are in one-to-one correspondence. */
  ghost predicate TriedOk(k: Env, info: map<int, Info>, cells: Cells) {
    && (forall c :: c in cells ==>
          cells[c] in info && info[cells[c]].inTried && c == TriedCell(k, info[cells[c]].service))
    && (forall id :: id in info && info[id].inTried ==>
          TriedCell(k, info[id].service) in cells && cells[TriedCell(k, info[id].service)] == id)
  }

  ghost predicate RefsOk(info: map<int, Info>, cells: Cells) {
    forall id :: id in info ==> info[id].refCount == |CellsOf(cells, id)| <= NEW_BUCKETS_PER_ADDRESS
  }

  ghost predicate IdsOk(info: map<int, Info>, idCount: int) {
    forall id :: id in info ==> 0 <= id < idCount
  }

  /** Everything in its place, apart from the address index. */
  ghost predicate Placed(k: Env, s: State) {
    && RandomInverse(s.info, s.random)
    && NewCellsOk(k, s.info, s.newCells)
    && TriedOk(k, s.info, s.triedCells)
    && RefsOk(s.info, s.newCells)
    && IdsOk(s.info, s.idCount)
  }

  /** The part of consistency that holds between any two statements. */
  ghost predicate Linked(k: Env, s: State) {
    AddrsInverse(s.info, s.addr) && Placed(k, s)
  }

  /** Every untried address outside `loose` has a cell to be found in. */
  ghost predicate Referenced(info: map<int, Info>, loose: set<int>) {
    forall id :: id in info && !info[id].inTried && id !in loose ==> info[id].refCount > 0
  }

  /** Both counters are right; nNew is off by `d` in the middle of a move. */
  ghost predicate Counted(s: State, d: int) {
    s.nNew == |NewIds(s.info)| + d && s.nTried == |TriedIds(s.info)|
  }

  /** Each pending collision that still names an address is over an occupied tried cell. */
  ghost predicate CollisionsOk(k: Env, s: State) {
    && |s.collisions| <= SET_TRIED_COLLISION_SIZE
    && (forall id :: id in s.collisions ==>
          id < s.idCount && (id in s.info ==> TriedCell(k, s.info[id].service) in s.triedCells))
  }

  ghost predicate Inv(k: Env, s: State) {
    Linked(k, s) && Referenced(s.info, {}) && Counted(s, 0)
  }

  // ----- the elementary operations

  function SetInfo(s: State, id: int, i: Info): State {
    s.(info := s.info[id := i])
  }

  function Create(s: State, a: Address, source: NetAddr): State {
    var id := s.idCount;
    s.(idCount := id + 1,
       info := s.info[id := NewInfo(a, source).(randomPos := |s.random|)],
       addr := s.addr[a.service.addr := id],
       random := s.random + [id])
  }

  function Swap(s: State, i: nat, j: nat): State
    requires i < |s.random| && j < |s.random|
    requires s.random[i] in s.info && s.random[j] in s.info
  {
    if i == j then s
    else
      var id1, id2 := s.random[i], s.random[j];
      s.(info := s.info[id1 := s.info[id1].(randomPos := j)][id2 := s.info[id2].(randomPos := i)],
         random := s.random[i := id2][j := id1])
  }

  function Delete(s: State, id: int): State
    requires id in s.info && RandomInverse(s.info, s.random)
  {
    var t := Swap(s, s.info[id].randomPos, |s.random| - 1);
    t.(info := t.info - {id},
       addr := s.addr - {s.info[id].service.addr},
       random := t.random[..|s.random| - 1],
       nNew := s.nNew - 1)
  }

  /** Empties a new cell, forgetting the address there if that was its last one. */
  function ClearNew(k: Env, s: State, c: Cell): State
    requires Linked(k, s)
  {
    if c !in s.newCells then s
    else
      var id := s.newCells[c];
      var i := s.info[id].(refCount := s.info[id].refCount - 1);
      var t := s.(info := s.info[id := i], newCells := s.newCells - {c});
      if i.refCount == 0 then (RandomTouched(s.info, s.random, id, i); Delete(t, id)) else t
  }

  lemma RandomTouched(info: map<int, Info>, random: seq<int>, id: int, i: Info)
    requires RandomInverse(info, random) && id in info && i.randomPos == info[id].randomPos
    ensures RandomInverse(info[id := i], random)
  {
  }
}
