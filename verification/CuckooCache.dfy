/** The cache of verified signatures: a cuckoo table with eight locations per element, lazy deletion and epochs. */
module CuckooCache {
  import opened Arithmetic

  /** A place in the table: the element stored last, whether it may be overwritten, and its epoch flag. */
  datatype Slot<T> = Slot(elem: T, collected: bool, recent: bool)

  /** An element that counts as stored, with its epoch flag. */
  datatype Item<T> = Item(elem: T, recent: bool)

  ghost function ItemOf<T>(slot: Slot<T>): multiset<Item<T>> {
    if slot.collected then multiset{} else multiset{Item(slot.elem, slot.recent)}
  }

  ghost function Items<T>(s: seq<Slot<T>>): multiset<Item<T>> {
    if s == [] then multiset{} else Items(s[..|s| - 1]) + ItemOf(s[|s| - 1])
  }

  /** Stored elements whose epoch flag is the given one. */
  function One<T>(slot: Slot<T>, recent: bool): nat {
    if !slot.collected && slot.recent == recent then 1 else 0
  }

  function Count<T>(s: seq<Slot<T>>, recent: bool): nat {
    if s == [] then 0 else Count(s[..|s| - 1], recent) + One(s[|s| - 1], recent)
  }

  lemma AddToBoth<I>(a: multiset<I>, b: multiset<I>, x: multiset<I>, y: multiset<I>, more: multiset<I>)
    requires b + x == a + y
    ensures (b + more) + x == (a + more) + y
  {
    assert (b + more) + x == (b + x) + more;
    assert (a + more) + y == (a + y) + more;
  }

  lemma {:induction false} SetItem<T>(s: seq<Slot<T>>, i: nat, slot: Slot<T>)
    requires i < |s|
    ensures Items(s[i := slot]) + ItemOf(s[i]) == Items(s) + ItemOf(slot)
    decreases |s|
  {
    hide ItemOf;
    var n, after := |s| - 1, s[i := slot];
    if i < n {
      SetItem(s[..n], i, slot);
      assert after[..n] == s[..n][i := slot];
      AddToBoth(Items(s[..n]), Items(after[..n]), ItemOf(s[i]), ItemOf(slot), ItemOf(s[n]));
    } else {
      assert after[..n] == s[..n];
    }
  }

  lemma {:induction false} SetCount<T>(s: seq<Slot<T>>, i: nat, slot: Slot<T>, recent: bool)
    requires i < |s|
    ensures Count(s[i := slot], recent) + One(s[i], recent) == Count(s, recent) + One(slot, recent)
    decreases |s|
  {
    var n, after := |s| - 1, s[i := slot];
    if i < n {
      SetCount(s[..n], i, slot, recent);
      assert after[..n] == s[..n][i := slot];
    } else {
      assert after[..n] == s[..n];
    }
  }

  lemma SetSlot<T>(s: seq<Slot<T>>, i: nat, slot: Slot<T>)
    requires i < |s|
    ensures Items(s[i := slot]) + ItemOf(s[i]) == Items(s) + ItemOf(slot)
    ensures Count(s[i := slot], true) + One(s[i], true) == Count(s, true) + One(slot, true)
    ensures Count(s[i := slot], false) + One(s[i], false) == Count(s, false) + One(slot, false)
  {
    SetItem(s, i, slot);
    SetCount(s, i, slot, true);
    SetCount(s, i, slot, false);
  }

  lemma {:induction false} CountBound<T>(s: seq<Slot<T>>)
    ensures Count(s, true) + Count(s, false) == |Items(s)| <= |s|
    decreases |s|
  {
    if s != [] { CountBound(s[..|s| - 1]); }
  }

  // ----- locations

  function Locations<T>(hash: (T, nat) -> Hash32, size: nat, e: T): (locs: seq<nat>)
    requires size > 0
    ensures |locs| == 8 && forall k :: 0 <= k < 8 ==> locs[k] < size
  {
    [ScaledHash(hash(e, 0), size), ScaledHash(hash(e, 1), size), ScaledHash(hash(e, 2), size), ScaledHash(hash(e, 3), size),
     ScaledHash(hash(e, 4), size), ScaledHash(hash(e, 5), size), ScaledHash(hash(e, 6), size), ScaledHash(hash(e, 7), size)]
  }

  /** Every stored element is at one of its own locations, where a lookup will find it. */
  ghost predicate Placed<T>(hash: (T, nat) -> Hash32, s: seq<Slot<T>>) {
    forall i :: 0 <= i < |s| && !s[i].collected ==> i in Locations(hash, |s|, s[i].elem)
  }

  /** The location after `last` in circular order, or the second one if there is no last location. */
  function NextLocation(locs: seq<nat>, last: int): (loc: nat)
    requires |locs| == 8
    ensures loc in locs
  {
    locs[(1 + Find(locs, last)) % 8]
  }

  function Find(locs: seq<nat>, last: int): (k: nat)
    ensures k <= |locs| && (k < |locs| ==> locs[k] == last) && (k == |locs| <==> last !in locs)
    ensures forall j :: 0 <= j < k ==> locs[j] != last
  {
    if locs == [] || locs[0] == last then 0 else 1 + Find(locs[1..], last)
  }

  /** The first displacement goes to the second location. */
  lemma FirstDisplacement(locs: seq<nat>, last: int)
    requires |locs| == 8 && last !in locs
    ensures NextLocation(locs, last) == locs[1]
  {
  }

  /** The location occurs again right after its first occurrence. */
  ghost predicate Doubled(locs: seq<nat>, last: int) {
    exists k :: 0 <= k < |locs| - 1 && (forall j :: 0 <= j < k ==> locs[j] != last) && locs[k] == last == locs[k + 1]
  }

  /** Later displacements move away from the slot just filled, unless its location is doubled: then the element just
      put in is taken out again. */
  lemma MovesOnIff(locs: seq<nat>, last: int)
    requires |locs| == 8 && last in locs
    ensures NextLocation(locs, last) != last <==> !Doubled(locs, last)
  {
    var k := Find(locs, last);
    if k == 7 {
      assert locs[0] != last;
    } else if locs[k + 1] == last {
      assert Doubled(locs, last);
    }
  }

  /** Two equal hashes are enough for that. */
  lemma MovesBack(locs: seq<nat>)
    requires |locs| == 8 && locs[0] == locs[1]
    ensures NextLocation(locs, locs[0]) == locs[0]
  {
    assert Doubled(locs, locs[0]);
    MovesOnIff(locs, locs[0]);
  }

  // ----- epochs

  function EpochSize(size: nat): nat {
    Max(1, (45 * size) % 0x1_0000_0000 / 100)
  }

  /** How many stored elements an epoch can have at most. */
  function EpochLimit(epochSize: nat): nat {
    epochSize + Max(1, epochSize / 16)
  }

  /** The scan comes before the current epoch can outgrow its limit, and an epoch that has ended only shrinks. */
  ghost predicate EpochsOk<T>(s: seq<Slot<T>>, counter: nat, epochSize: nat) {
    && Count(s, true) + counter <= EpochLimit(epochSize)
    && Count(s, false) <= EpochLimit(epochSize)
  }

  function Aged<T>(slot: Slot<T>): Slot<T> {
    if slot.recent then slot.(recent := false) else slot.(collected := true)
  }

  function AllAged<T>(s: seq<Slot<T>>): (r: seq<Slot<T>>)
    ensures |r| == |s| && forall i :: 0 <= i < |s| ==> r[i] == Aged(s[i])
  {
    seq(|s|, i requires 0 <= i < |s| => Aged(s[i]))
  }

  lemma {:induction false} AgedCounts<T>(s: seq<Slot<T>>)
    ensures Count(AllAged(s), true) == 0 && Count(AllAged(s), false) == Count(s, true)
    decreases |s|
  {
    if s != [] {
      AgedCounts(s[..|s| - 1]);
      assert AllAged(s)[..|s| - 1] == AllAged(s[..|s| - 1]);
    }
  }

  lemma AgedPlaced<T>(hash: (T, nat) -> Hash32, s: seq<Slot<T>>)
    requires Placed(hash, s)
    ensures Placed(hash, AllAged(s))
  {
  }

  /** At most two epochs are stored at once, each within its limit. */
  lemma LoadBound<T>(s: seq<Slot<T>>, counter: nat, epochSize: nat)
    requires EpochsOk(s, counter, epochSize)
    ensures |Items(s)| <= 2 * EpochLimit(epochSize)
  {
    CountBound(s);
  }

  /** In all but the smallest tables some slot is always free. */
  lemma RoomLeft<T>(s: seq<Slot<T>>, counter: nat)
    requires 20 < |s| && 45 * |s| < 0x1_0000_0000 && EpochsOk(s, counter, EpochSize(|s|))
    ensures |Items(s)| < |s|
  {
    LoadBound(s, counter, EpochSize(|s|));
  }

  // ----- moving elements

  function Bit(b: bool): nat {
    if b then 1 else 0
  }

  /** The element in hand and the table together hold what the table held at first and the new element. */
  ghost predicate Conserved<T>(s0: seq<Slot<T>>, e: T, s: seq<Slot<T>>, cur: T, flag: bool) {
    && Items(s) + multiset{Item(cur, flag)} == Items(s0) + multiset{Item(e, true)}
    && Count(s, true) + Bit(flag) == Count(s0, true) + 1
    && Count(s, false) + Bit(!flag) == Count(s0, false)
  }

  lemma StoreKeeps<T>(hash: (T, nat) -> Hash32, s0: seq<Slot<T>>, e: T, s: seq<Slot<T>>, cur: T, flag: bool, loc: nat)
    requires Conserved(s0, e, s, cur, flag) && Placed(hash, s)
    requires loc < |s| && loc in Locations(hash, |s|, cur) && s[loc].collected
    ensures var after := s[loc := Slot(cur, false, flag)];
            && Placed(hash, after) && Items(after) == Items(s0) + multiset{Item(e, true)}
            && Count(after, true) == Count(s0, true) + 1 && Count(after, false) == Count(s0, false)
  {
    SetSlot(s, loc, Slot(cur, false, flag));
  }

  lemma SwapKeeps<T>(hash: (T, nat) -> Hash32, s0: seq<Slot<T>>, e: T, s: seq<Slot<T>>, cur: T, flag: bool, loc: nat)
    requires Conserved(s0, e, s, cur, flag) && Placed(hash, s)
    requires loc < |s| && loc in Locations(hash, |s|, cur) && !s[loc].collected
    ensures var after := s[loc := Slot(cur, false, flag)];
            && Placed(hash, after) && Conserved(s0, e, after, s[loc].elem, s[loc].recent)
            && loc in Locations(hash, |s|, s[loc].elem)
  {
    SetSlot(s, loc, Slot(cur, false, flag));
  }

  /** Finding the element already there only renews it. */
  lemma RenewKeeps<T>(hash: (T, nat) -> Hash32, s: seq<Slot<T>>, e: T, loc: nat)
    requires Placed(hash, s) && loc < |s| && loc in Locations(hash, |s|, e) && s[loc].elem == e
    ensures var after := s[loc := Slot(e, false, true)];
            && Placed(hash, after) && Items(after) + ItemOf(s[loc]) == Items(s) + multiset{Item(e, true)}
            && Count(after, true) <= Count(s, true) + 1 && Count(after, false) <= Count(s, false)
  {
    SetSlot(s, loc, Slot(e, false, true));
  }

  lemma EraseKeeps<T>(hash: (T, nat) -> Hash32, s: seq<Slot<T>>, counter: nat, epochSize: nat, loc: nat)
    requires Placed(hash, s) && EpochsOk(s, counter, epochSize) && loc < |s|
    ensures var after := s[loc := s[loc].(collected := true)];
            Placed(hash, after) && EpochsOk(after, counter, epochSize) && Items(after) + ItemOf(s[loc]) == Items(s)
  {
    SetSlot(s, loc, s[loc].(collected := true));
  }

  // ----- lookups

  /** One of the locations of e may be overwritten. */
  predicate HasFree<T>(hash: (T, nat) -> Hash32, s: seq<Slot<T>>, e: T)
    requires |s| > 0
  {
    exists k :: 0 <= k < 8 && s[Locations(hash, |s|, e)[k]].collected
  }

  /** The slot that held e may now be overwritten; nothing else has changed. */
  ghost predicate Released<T>(before: seq<Slot<T>>, after: seq<Slot<T>>, loc: nat, e: T)
    requires loc < |before|
  {
    before[loc].elem == e && after == before[loc := before[loc].(collected := true)]
  }

  predicate Found<T(==)>(hash: (T, nat) -> Hash32, s: seq<Slot<T>>, e: T)
    requires |s| > 0
  {
    exists k :: 0 <= k < 8 && s[Locations(hash, |s|, e)[k]].elem == e
  }

  lemma {:induction false} SlotOfItem<T>(s: seq<Slot<T>>, item: Item<T>) returns (i: nat)
    requires item in Items(s)
    ensures i < |s| && !s[i].collected && s[i].elem == item.elem && s[i].recent == item.recent
    decreases |s|
  {
    if item in ItemOf(s[|s| - 1]) {
      i := |s| - 1;
    } else {
      i := SlotOfItem(s[..|s| - 1], item);
    }
  }

  /** Every stored element is found. */
  lemma StoredIsFound<T>(hash: (T, nat) -> Hash32, s: seq<Slot<T>>, item: Item<T>)
    requires |s| > 0 && Placed(hash, s) && item in Items(s)
    ensures Found(hash, s, item.elem)
  {
    var i := SlotOfItem(s, item);
    var locs := Locations(hash, |s|, item.elem);
    var k :| 0 <= k < 8 && locs[k] == i;
  }

  class Cache<T(==)> {
    const hash: (T, nat) -> Hash32
    const table: array<Slot<T>>
    const epochSize: nat
    const depthLimit: nat
    var epochHeuristicCounter: nat

    ghost predicate Valid()
      reads this, table
    {
      table.Length >= 2 && Placed(hash, table[..]) && EpochsOk(table[..], epochHeuristicCounter, epochSize)
    }

    /** All slots start out free. */
    constructor Setup(hash: (T, nat) -> Hash32, default: T, newSize: nat, depthLimit: nat)
      requires newSize < 0x1_0000_0000
      ensures Valid() && fresh(table) && table.Length == Max(2, newSize) && Items(table[..]) == multiset{}
      ensures this.hash == hash && this.depthLimit == depthLimit && epochSize == EpochSize(table.Length)
    {
      this.hash, this.depthLimit := hash, depthLimit;
      var size := Max(2, newSize);
      table := new Slot<T>[size](i => Slot(default, true, false));
      epochSize := EpochSize(size);
      epochHeuristicCounter := EpochSize(size);
      new;
      AllFree(table[..]);
    }

    /** Counts the stored elements of the current epoch. */
    method CountRecent() returns (n: nat)
      ensures n == Count(table[..], true)
    {
      n := 0;
      var i := 0;
      while i < table.Length
        invariant 0 <= i <= table.Length && n == Count(table[..i], true)
      {
        assert table[..i + 1][..i] == table[..i];
        n := n + One(table[i], true);
        i := i + 1;
      }
      assert table[..i] == table[..];
    }

    method AgeAll()
      modifies table
      ensures table[..] == AllAged(old(table[..]))
    {
      var i := 0;
      while i < table.Length
        invariant 0 <= i <= table.Length
        invariant forall j :: 0 <= j < i ==> table[j] == Aged(old(table[j]))
        invariant forall j :: i <= j < table.Length ==> table[j] == old(table[j])
      {
        table[i] := Aged(table[i]);
        i := i + 1;
      }
    }

    /** Leaves room for one more element in the current epoch. Only a full epoch ends, and then what it had is kept
        as the old epoch. */
    method EpochCheck()
      requires Valid()
      modifies this, table
      ensures table.Length >= 2 && Placed(hash, table[..])
      ensures Count(table[..], true) + 1 + epochHeuristicCounter <= EpochLimit(epochSize)
      ensures Count(table[..], false) <= EpochLimit(epochSize)
      ensures table[..] == old(table[..]) || table[..] == AllAged(old(table[..]))
      ensures table[..] != old(table[..]) ==> old(Count(table[..], true)) >= epochSize
    {
      if epochHeuristicCounter != 0 {
        epochHeuristicCounter := epochHeuristicCounter - 1;
        return;
      }
      var epochUnusedCount := CountRecent();
      if epochUnusedCount >= epochSize {
        AgedCounts(table[..]);
        AgedPlaced(hash, table[..]);
        AgeAll();
        epochHeuristicCounter := epochSize;
      } else {
        epochHeuristicCounter := Max(1, Max(epochSize / 16, epochSize - epochUnusedCount));
      }
    }

    /** Looks the element up; a hit can be released for overwriting, but stays findable until then. */
    method Contains(e: T, erase: bool) returns (found: bool)
      requires Valid()
      modifies table
      ensures Valid()
      ensures found <==> Found(hash, old(table[..]), e)
      ensures !(found && erase) ==> table[..] == old(table[..])
      ensures found && erase ==> exists loc :: 0 <= loc < table.Length && Released(old(table[..]), table[..], loc, e)
      ensures Found(hash, table[..], e) <==> found
    {
      var loc := Where(e);
      if loc == table.Length { return false; }
      if erase {
        EraseKeeps(hash, table[..], epochHeuristicCounter, epochSize, loc);
        ghost var before := table[..];
        table[loc] := table[loc].(collected := true);
        assert Released(before, table[..], loc, e);
        StillFound(hash, before, table[..], loc, e);
      }
      return true;
    }

    /** The first location that holds the element, or the table's length. */
    method Where(e: T) returns (loc: nat)
      requires table.Length > 0
      ensures loc <= table.Length && (loc < table.Length <==> Found(hash, table[..], e))
      ensures loc < table.Length ==> table[loc].elem == e && loc in Locations(hash, table.Length, e)
    {
      var locs := Locations(hash, table.Length, e);
      var k := 0;
      while k < 8
        invariant 0 <= k <= 8 && forall j :: 0 <= j < k ==> table[locs[j]].elem != e
      {
        if table[locs[k]].elem == e {
          assert table[..][locs[k]].elem == e;
          return locs[k];
        }
        k := k + 1;
      }
      assert forall j :: 0 <= j < 8 ==> table[..][locs[j]].elem != e;
      return table.Length;
    }

    /** The first free location, if there is one. */
    method FirstFree(locs: seq<nat>) returns (k: nat)
      requires |locs| == 8 && forall j :: 0 <= j < 8 ==> locs[j] < table.Length
      ensures k <= 8 && (k < 8 ==> table[locs[k]].collected)
      ensures k == 8 ==> forall j :: 0 <= j < 8 ==> !table[locs[j]].collected
    {
      k := 0;
      while k < 8
        invariant 0 <= k <= 8 && forall j :: 0 <= j < k ==> !table[locs[j]].collected
      {
        if table[locs[k]].collected { return; }
        k := k + 1;
      }
    }

    /** Moves elements along until one lands on a free slot, or gives the last one up. */
    method Place(e: T) returns (ghost gone: multiset<Item<T>>)
      requires table.Length >= 2 && Placed(hash, table[..])
      modifies table
      ensures Placed(hash, table[..]) && |gone| <= 1
      ensures Items(table[..]) + gone == Items(old(table[..])) + multiset{Item(e, true)}
      ensures Count(table[..], true) <= old(Count(table[..], true)) + 1
      ensures Count(table[..], false) <= old(Count(table[..], false))
      ensures depthLimit > 0 && HasFree(hash, old(table[..]), e) ==> gone == multiset{}
    {
      hide Placed, Items, Count, Locations, NextLocation;
      var lastLoc, lastEpoch, cur := -1, true, e;
      var depth := 0;
      while depth < depthLimit
        invariant Placed(hash, table[..]) && Conserved(old(table[..]), e, table[..], cur, lastEpoch)
        invariant 0 <= depth && (depth == 0 ==> cur == e && table[..] == old(table[..]))
        invariant depth > 0 ==> !HasFree(hash, old(table[..]), e)
      {
        var locs := Locations(hash, table.Length, cur);
        var k := FirstFree(locs);
        ghost var before := table[..];
        if k < 8 {
          StoreKeeps(hash, old(table[..]), e, before, cur, lastEpoch, locs[k]);
          table[locs[k]] := Slot(cur, false, lastEpoch);
          assert table[..] == before[locs[k] := Slot(cur, false, lastEpoch)];
          return multiset{};
        }
        assert !HasFree(hash, before, cur);
        lastLoc := NextLocation(locs, lastLoc);
        SwapKeeps(hash, old(table[..]), e, before, cur, lastEpoch, lastLoc);
        var slot := table[lastLoc];
        table[lastLoc] := Slot(cur, slot.collected, lastEpoch);
        cur, lastEpoch := slot.elem, slot.recent;
        assert table[..] == before[lastLoc := table[lastLoc]];
        depth := depth + 1;
      }
      return multiset{Item(cur, lastEpoch)};
    }

    /** Stores the element, at the cost of at most one stored element. `aged` says whether an epoch ended first;
        only then are elements of the old epoch given up as well. */
    method Insert(e: T) returns (ghost aged: bool, ghost gone: multiset<Item<T>>)
      requires Valid()
      modifies this, table
      ensures Valid()
      ensures aged ==> old(Count(table[..], true)) >= epochSize
      ensures var base := if aged then AllAged(old(table[..])) else old(table[..]);
              && |gone| <= 1 && Items(table[..]) + gone == Items(base) + multiset{Item(e, true)}
              && (Found(hash, base, e) ==> forall item :: item in gone ==> item.elem == e)
              && (!Found(hash, base, e) && depthLimit > 0 && HasFree(hash, base, e) ==> gone == multiset{})
    {
      hide Items, Count, Placed, Found, HasFree, Locations, AllAged;
      EpochCheck();
      ghost var base := table[..];
      aged := base != old(table[..]);
      var loc := Where(e);
      if loc < table.Length {
        RenewKeeps(hash, base, e, loc);
        gone := ItemOf(base[loc]);
        table[loc] := Slot(e, false, true);
        assert table[..] == base[loc := Slot(e, false, true)];
        return;
      }
      gone := Place(e);
    }
  }

  lemma {:induction false} AllFree<T>(s: seq<Slot<T>>)
    requires forall i :: 0 <= i < |s| ==> s[i].collected
    ensures Items(s) == multiset{} && Count(s, true) == 0 && Count(s, false) == 0
    decreases |s|
  {
    if s != [] { AllFree(s[..|s| - 1]); }
  }

  lemma StillFound<T>(hash: (T, nat) -> Hash32, before: seq<Slot<T>>, after: seq<Slot<T>>, loc: nat, e: T)
    requires loc < |before| && Released(before, after, loc, e) && Found(hash, before, e)
    ensures Found(hash, after, e)
  {
    hide Locations;
    var k :| 0 <= k < 8 && before[Locations(hash, |before|, e)[k]].elem == e;
    assert after[Locations(hash, |after|, e)[k]].elem == e;
  }
}
