/** The rolling Bloom filter: a set that never forgets the most recent insertions. The 64-bit words of the filter are
    only ever used bit by bit, so a word is modelled as its 64 bits. */
module RollingBloom {
  import opened Arithmetic
  import opened Wrappers

  // ----- words

  type Word = s: seq<bool> | |s| == 64 witness seq(64, i => false)

  function Spread(v: bool): Word {
    seq(64, i => v)
  }

  function And(a: Word, b: Word): Word {
    seq(64, i requires 0 <= i < 64 => a[i] && b[i])
  }

  function Or(a: Word, b: Word): Word {
    seq(64, i requires 0 <= i < 64 => a[i] || b[i])
  }

  function Xor(a: Word, b: Word): Word {
    seq(64, i requires 0 <= i < 64 => a[i] != b[i])
  }

  // ----- cells and marks

  /** One position of the filter: a bit in a pair of words. */
  datatype Cell = Cell(pair: nat, bit: nat)

  /** The two bits of a cell: the generation it was set in, or two zeros. */
  datatype Mark = Mark(low: bool, high: bool)

  const UNSET := Mark(false, false)

  function Code(generation: nat): Mark {
    Mark(generation % 2 == 1, generation / 2 == 1)
  }

  predicate CellOk(size: nat, c: Cell) {
    2 * c.pair + 1 < size && c.bit < 64
  }

  function MarkAt(data: seq<Word>, c: Cell): Mark
    requires CellOk(|data|, c)
  {
    Mark(data[2 * c.pair][c.bit], data[2 * c.pair + 1][c.bit])
  }

  function WipeMask(p1: Word, p2: Word, generation: nat): Word {
    Or(Xor(p1, Spread(Code(generation).low)), Xor(p2, Spread(Code(generation).high)))
  }

  /** Wiping a generation unsets its marks and leaves all others. */
  lemma WipedMark(p1: Word, p2: Word, generation: nat, j: nat)
    requires j < 64
    ensures var mask, before := WipeMask(p1, p2, generation), Mark(p1[j], p2[j]);
            Mark(And(p1, mask)[j], And(p2, mask)[j]) == if before == Code(generation) then UNSET else before
  {
  }

  /** The cell for a hash value; the lowest bit of the position only tells the two words of a pair apart. */
  function CellOf(h: Hash32, size: nat): (c: Cell)
    requires size > 0 && size % 2 == 0
    ensures CellOk(size, c)
  {
    Cell(ScaledHash(h, size) / 2, h % 64)
  }

  // ----- generations

  /** The generation number used in the e-th generation since the last reset. */
  function GenerationOf(e: nat): (g: nat)
    ensures 1 <= g <= 3
  {
    e % 3 + 1
  }

  /** What a cell must show if it was last written in generation `last` and e is the current one. */
  function Expected(last: Option<nat>, e: nat): Mark {
    if last.None? || last.value + 3 <= e then UNSET else Code(GenerationOf(last.value))
  }

  lemma SameGeneration(g: nat, e: nat)
    requires g <= e < g + 3
    ensures GenerationOf(g) == GenerationOf(e + 1) <==> e == g + 2
  {
    if e == g + 2 {
      assert (g + 3) % 3 == g % 3;
    } else {
      assert (g + 1) % 3 != g % 3 && (g + 2) % 3 != g % 3;
    }
  }

  lemma CodesDiffer(g: nat, h: nat)
    requires 1 <= g <= 3 && 1 <= h <= 3
    ensures Code(g) == Code(h) <==> g == h
    ensures Code(g) != UNSET
  {
  }

  /** Going on to the next generation forgets exactly what was last written three generations ago. */
  lemma ExpectedNext(last: Option<nat>, e: nat)
    requires last.Some? ==> last.value <= e
    ensures Expected(last, e + 1) == if Expected(last, e) == Code(GenerationOf(e + 1)) then UNSET else Expected(last, e)
  {
    hide Code, GenerationOf;
    CodesDiffer(GenerationOf(e + 1), 1);
    if last.Some? && last.value + 3 > e {
      SameGeneration(last.value, e);
      CodesDiffer(GenerationOf(last.value), GenerationOf(e + 1));
    }
  }

  // ----- what has been inserted

  /** One of the first m hashes of the key falls on the cell. */
  predicate Touches<K>(hash: (K, nat) -> Hash32, size: nat, key: K, m: nat, c: Cell)
    requires size > 0 && size % 2 == 0
  {
    exists n :: 0 <= n < m && CellOf(hash(key, n), size) == c
  }

  datatype Shape<!K> = Shape(hash: (K, nat) -> Hash32, size: nat, funcs: nat, perGeneration: nat)

  predicate ShapeOk<K>(f: Shape<K>) {
    f.size > 0 && f.size % 2 == 0 && f.perGeneration > 0
  }

  /** The generation in which a cell was last written. */
  ghost function LastWrite<K>(f: Shape<K>, history: seq<K>, c: Cell): (last: Option<nat>)
    requires ShapeOk(f)
  {
    if history == [] then None
    else
      var t := |history| - 1;
      if Touches(f.hash, f.size, history[t], f.funcs, c) then Some(t / f.perGeneration)
      else LastWrite(f, history[..t], c)
  }

  /** The filter shows exactly the writes of the current generation and the two before it. */
  ghost predicate Tracks<K>(f: Shape<K>, history: seq<K>, e: nat, data: seq<Word>)
    requires ShapeOk(f)
  {
    |data| == f.size && forall c :: CellOk(f.size, c) ==> MarkAt(data, c) == Expected(LastWrite(f, history, c), e)
  }

  /** The key is reported as present. */
  predicate Seen<K>(f: Shape<K>, data: seq<Word>, key: K)
    requires ShapeOk(f) && |data| == f.size
  {
    forall n :: 0 <= n < f.funcs ==> MarkAt(data, CellOf(f.hash(key, n), f.size)) != UNSET
  }

  lemma {:induction false} WrittenSince<K>(f: Shape<K>, history: seq<K>, t: nat, c: Cell)
    requires ShapeOk(f) && t < |history| && Touches(f.hash, f.size, history[t], f.funcs, c)
    ensures LastWrite(f, history, c).Some? && t / f.perGeneration <= LastWrite(f, history, c).value
    decreases |history|
  {
    var u := |history| - 1;
    DivMonotone(t, u, f.perGeneration);
    if !Touches(f.hash, f.size, history[u], f.funcs, c) {
      WrittenSince(f, history[..u], t, c);
    }
  }

  lemma DivMonotone(a: nat, b: nat, n: nat)
    requires a <= b && n > 0
    ensures a / n <= b / n
  {
    MulMonotone(b / n + 1, a / n, n);
  }

  /** Every key of the current and the two preceding generations is found. */
  lemma RecentSeen<K>(f: Shape<K>, history: seq<K>, e: nat, data: seq<Word>, t: nat)
    requires ShapeOk(f) && Tracks(f, history, e, data) && t < |history| && e <= t / f.perGeneration + 2
    ensures Seen(f, data, history[t])
  {
    forall n | 0 <= n < f.funcs ensures MarkAt(data, CellOf(f.hash(history[t], n), f.size)) != UNSET {
      var c := CellOf(f.hash(history[t], n), f.size);
      WrittenSince(f, history, t, c);
    }
  }

  /** The filter never forgets the last 2 * perGeneration keys. */
  lemma LastOnesSeen<K>(f: Shape<K>, history: seq<K>, e: nat, data: seq<Word>, t: nat)
    requires ShapeOk(f) && Tracks(f, history, e, data)
    requires t < |history| <= t + 2 * f.perGeneration && e == (|history| - 1) / f.perGeneration
    ensures Seen(f, data, history[t])
  {
    var n := f.perGeneration;
    DivMonotone(|history| - 1, t + 2 * n, n);
    assert t + 2 * n == n * 2 + t;
    DivShift(t, n);
    RecentSeen(f, history, e, data, t);
  }

  lemma DivShift(t: nat, n: nat)
    requires n > 0
    ensures (t + 2 * n) / n == t / n + 2
  {
    assert (t + 2 * n) == (t / n + 2) * n + t % n;
    DivUnique(t + 2 * n, n, t / n + 2, t % n);
  }

  lemma DivUnique(a: nat, n: nat, q: nat, r: nat)
    requires n > 0 && r < n && a == q * n + r
    ensures a / n == q
  {
    assert a / n * n + a % n == a;
    MulMonotone(q + 1, a / n, n);
    MulMonotone(a / n + 1, q, n);
  }

  lemma LastWriteBound<K>(f: Shape<K>, history: seq<K>, c: Cell, e: nat)
    requires ShapeOk(f) && (history != [] ==> (|history| - 1) / f.perGeneration <= e)
    ensures LastWrite(f, history, c).Some? ==> LastWrite(f, history, c).value <= e
    decreases |history|
  {
    if history != [] {
      var u := |history| - 1;
      if u > 0 { DivMonotone(u - 1, u, f.perGeneration); }
      LastWriteBound(f, history[..u], c, e);
    }
  }

  ghost predicate WipedTo(before: seq<Word>, generation: nat, after: seq<Word>) {
    && |after| == |before|
    && forall c :: CellOk(|before|, c) ==>
         MarkAt(after, c) == if MarkAt(before, c) == Code(generation) then UNSET else MarkAt(before, c)
  }

  ghost predicate MarkedTo<K>(f: Shape<K>, key: K, m: nat, generation: nat, before: seq<Word>, after: seq<Word>)
    requires ShapeOk(f)
  {
    && |after| == |before| == f.size
    && forall c :: CellOk(f.size, c) ==>
         MarkAt(after, c) == if Touches(f.hash, f.size, key, m, c) then Code(generation) else MarkAt(before, c)
  }

  lemma WipeTracks<K>(f: Shape<K>, history: seq<K>, e: nat, before: seq<Word>, after: seq<Word>)
    requires ShapeOk(f) && Tracks(f, history, e, before) && WipedTo(before, GenerationOf(e + 1), after)
    requires history != [] ==> (|history| - 1) / f.perGeneration <= e
    ensures Tracks(f, history, e + 1, after)
  {
    hide LastWrite, Expected, MarkAt, Code, GenerationOf;
    forall c | CellOk(f.size, c) ensures MarkAt(after, c) == Expected(LastWrite(f, history, c), e + 1) {
      LastWriteBound(f, history, c, e);
      ExpectedNext(LastWrite(f, history, c), e);
    }
  }

  lemma InsertTracks<K>(f: Shape<K>, history: seq<K>, key: K, e: nat, before: seq<Word>, after: seq<Word>)
    requires ShapeOk(f) && Tracks(f, history, e, before) && e == |history| / f.perGeneration
    requires MarkedTo(f, key, f.funcs, GenerationOf(e), before, after)
    ensures Tracks(f, history + [key], e, after)
  {
    hide MarkAt, Code, GenerationOf, Touches;
    var longer := history + [key];
    assert longer[..|history|] == history;
    forall c | CellOk(f.size, c) ensures MarkAt(after, c) == Expected(LastWrite(f, longer, c), e) {
    }
  }

  // ----- the filter

  class RollingBloomFilter<K> {
    const nEntriesPerGeneration: nat
    const nHashFuncs: nat
    const data: array<Word>
    /** MurmurHash3 under the current tweak. */
    var hash: (K, nat) -> Hash32
    var nEntriesThisGeneration: nat
    var nGeneration: nat
    /** The keys inserted since the last reset, and the number of generations begun after the first. */
    ghost var history: seq<K>
    ghost var epoch: nat

    ghost function Form(): Shape<K>
      reads this
    {
      Shape(hash, data.Length, nHashFuncs, nEntriesPerGeneration)
    }

    ghost predicate Valid()
      reads this, data
    {
      && ShapeOk(Form())
      && nEntriesThisGeneration <= nEntriesPerGeneration
      && |history| == epoch * nEntriesPerGeneration + nEntriesThisGeneration
      && (if history == [] then epoch == 0 else nEntriesThisGeneration > 0)
      && nGeneration == GenerationOf(epoch)
      && Tracks(Form(), history, epoch, data[..])
    }

    /** The number of hash functions and of word pairs come from floating-point formulas and are parameters here. */
    constructor (nElements: nat, nHashFuncs: nat, pairs: nat, hash: (K, nat) -> Hash32)
      requires nElements > 0 && pairs > 0
      ensures Valid() && fresh(data) && history == [] && this.nHashFuncs == nHashFuncs
      ensures nElements <= 2 * nEntriesPerGeneration <= nElements + 1
    {
      nEntriesPerGeneration := (nElements + 1) / 2;
      this.nHashFuncs, this.hash := nHashFuncs, hash;
      data := new Word[2 * pairs](i => Spread(false));
      nEntriesThisGeneration, nGeneration, history, epoch := 0, 1, [], 0;
    }

    method Reset(tweaked: (K, nat) -> Hash32)
      requires Valid()
      modifies this, data
      ensures Valid() && history == [] && hash == tweaked
    {
      hash, nEntriesThisGeneration, nGeneration, history, epoch := tweaked, 0, 1, [], 0;
      var i := 0;
      while i < data.Length
        modifies data
        invariant 0 <= i <= data.Length && forall j :: 0 <= j < i ==> data[j] == Spread(false)
      {
        data[i] := Spread(false);
        i := i + 1;
      }
    }

    /** Unsets all marks of a generation number. */
    method Wipe(generation: nat)
      requires data.Length % 2 == 0
      modifies data
      ensures WipedTo(old(data[..]), generation, data[..])
    {
      var p := 0;
      while p < data.Length
        invariant 0 <= p <= data.Length && p % 2 == 0
        invariant forall i :: p <= i < data.Length ==> data[i] == old(data[i])
        invariant forall i :: 0 <= 2 * i < p ==>
                    var mask := WipeMask(old(data[2 * i]), old(data[2 * i + 1]), generation);
                    data[2 * i] == And(old(data[2 * i]), mask) && data[2 * i + 1] == And(old(data[2 * i + 1]), mask)
      {
        var p1, p2 := data[p], data[p + 1];
        var mask := WipeMask(p1, p2, generation);
        data[p], data[p + 1] := And(p1, mask), And(p2, mask);
        p := p + 2;
      }
      forall c | CellOk(data.Length, c)
        ensures MarkAt(data[..], c) == var m := MarkAt(old(data[..]), c); if m == Code(generation) then UNSET else m {
        WipedMark(old(data[2 * c.pair]), old(data[2 * c.pair + 1]), generation, c.bit);
      }
    }

    /** Marks the cells of a key with the current generation. */
    method SetMarks(key: K)
      requires ShapeOk(Form())
      modifies data
      ensures MarkedTo(Form(), key, nHashFuncs, nGeneration, old(data[..]), data[..])
    {
      hide ScaledHash;
      var n := 0;
      while n < nHashFuncs
        invariant 0 <= n <= nHashFuncs
        invariant MarkedTo(Form(), key, n, nGeneration, old(data[..]), data[..])
      {
        var c := CellOf(hash(key, n), data.Length);
        var word1, word2 := data[2 * c.pair], data[2 * c.pair + 1];
        ghost var before := data[..];
        data[2 * c.pair], data[2 * c.pair + 1] := word1[c.bit := nGeneration % 2 == 1], word2[c.bit := nGeneration / 2 == 1];
        MarkedOnce(Form(), key, n, nGeneration, old(data[..]), before, data[..]);
        n := n + 1;
      }
    }

    method Insert(key: K)
      requires Valid()
      modifies this, data
      ensures Valid() && history == old(history) + [key] && hash == old(hash)
    {
      hide Tracks, MarkedTo, WipedTo, LastWrite;
      EpochFormula();
      if nEntriesThisGeneration == nEntriesPerGeneration {
        nEntriesThisGeneration := 0;
        nGeneration := nGeneration + 1;
        if nGeneration == 4 { nGeneration := 1; }
        ghost var before := data[..];
        Wipe(nGeneration);
        WipeTracks(Form(), history, epoch, before, data[..]);
        epoch := epoch + 1;
      }
      DivUnique(|history|, nEntriesPerGeneration, epoch, nEntriesThisGeneration);
      nEntriesThisGeneration := nEntriesThisGeneration + 1;
      ghost var before := data[..];
      SetMarks(key);
      InsertTracks(Form(), history, key, epoch, before, data[..]);
      history := history + [key];
    }

    /** True for each of the last nElements keys; see LastOnesSeen. */
    method Contains(key: K) returns (r: bool)
      requires Valid()
      ensures r <==> Seen(Form(), data[..], key)
      ensures forall t :: 0 <= t < |history| <= t + 2 * nEntriesPerGeneration && history[t] == key ==> r
    {
      hide Tracks, LastWrite;
      EpochFormula();
      if t :| 0 <= t < |history| <= t + 2 * nEntriesPerGeneration && history[t] == key {
        LastOnesSeen(Form(), history, epoch, data[..], t);
      }
      var n := 0;
      while n < nHashFuncs
        invariant 0 <= n <= nHashFuncs
        invariant forall m :: 0 <= m < n ==> MarkAt(data[..], CellOf(hash(key, m), data.Length)) != UNSET
      {
        var c := CellOf(hash(key, n), data.Length);
        if !(data[2 * c.pair][c.bit] || data[2 * c.pair + 1][c.bit]) {
          assert MarkAt(data[..], c) == UNSET;
          return false;
        }
        n := n + 1;
      }
      return true;
    }

    lemma EpochFormula()
      requires Valid()
      ensures history != [] ==> epoch == (|history| - 1) / nEntriesPerGeneration
    {
      if history != [] {
        DivUnique(|history| - 1, nEntriesPerGeneration, epoch, nEntriesThisGeneration - 1);
      }
    }
  }

  lemma MarkedOnce<K>(f: Shape<K>, key: K, n: nat, generation: nat, start: seq<Word>, before: seq<Word>, after: seq<Word>)
    requires ShapeOk(f) && MarkedTo(f, key, n, generation, start, before)
    requires var c := CellOf(f.hash(key, n), f.size);
             after == before[2 * c.pair := before[2 * c.pair][c.bit := Code(generation).low]]
                            [2 * c.pair + 1 := before[2 * c.pair + 1][c.bit := Code(generation).high]]
    ensures MarkedTo(f, key, n + 1, generation, start, after)
  {
    hide ScaledHash;
    var c := CellOf(f.hash(key, n), f.size);
    forall d | CellOk(f.size, d)
      ensures MarkAt(after, d) == if Touches(f.hash, f.size, key, n + 1, d) then Code(generation) else MarkAt(start, d) {
      TouchesNext(f, key, n, d);
      assert d != c ==> MarkAt(after, d) == MarkAt(before, d);
    }
  }

  lemma TouchesNext<K>(f: Shape<K>, key: K, n: nat, d: Cell)
    requires ShapeOk(f)
    ensures Touches(f.hash, f.size, key, n + 1, d)
       <==> Touches(f.hash, f.size, key, n, d) || CellOf(f.hash(key, n), f.size) == d
  {
  }
}
