/** Differential coding of the transaction indexes that a peer asks for. */
module IndexLists {
  import opened Wrappers

  const MAX_INDEX := 65535

  predicate Fits(ix: seq<nat>) {
    forall i :: 0 <= i < |ix| ==> ix[i] <= MAX_INDEX
  }

  predicate Increasing(ix: seq<nat>) {
    forall i :: 0 < i < |ix| ==> ix[i - 1] < ix[i]
  }

  /** The difference to the index after the previous one, as a 64-bit number: going back wraps around. */
  function Difference(ix: seq<nat>, i: nat): nat
    requires i < |ix|
  {
    var d: int := ix[i] as int - (if i == 0 then 0 else ix[i - 1] as int + 1);
    d % 0x1_0000_0000_0000_0000
  }

  function Encode(ix: seq<nat>): (d: seq<nat>)
    ensures |d| == |ix| && forall i :: 0 <= i < |ix| ==> d[i] == Difference(ix, i)
  {
    seq(|ix|, i requires 0 <= i < |ix| => Difference(ix, i))
  }

  function Extend(front: Option<seq<nat>>, d: nat): Option<seq<nat>> {
    if front.None? || d > MAX_INDEX then None
    else
      var ix := front.value;
      var index := d + (if ix == [] then 0 else ix[|ix| - 1] + 1);
      if index > MAX_INDEX then None else Some(ix + [index])
  }

  /** The indexes from the front; None if one of them does not fit into 16 bits. */
  function Decode(d: seq<nat>): Option<seq<nat>> {
    if d == [] then Some([]) else Extend(Decode(d[..|d| - 1]), d[|d| - 1])
  }

  /** Accepted lists are strictly increasing, fit, and are coded by what they were read from. */
  lemma {:induction false} DecodedIncreasing(d: seq<nat>)
    requires Decode(d).Some?
    ensures var ix := Decode(d).value; |ix| == |d| && Increasing(ix) && Fits(ix) && Encode(ix) == d
    decreases |d|
  {
    hide Decode, Increasing;
    EmptyList();
    if d != [] {
      var n := |d| - 1;
      DecodeLast(d);
      DecodedIncreasing(d[..n]);
      var ix := Decode(d).value;
      assert ix[..n] == Decode(d[..n]).value;
      IncreasingFront(ix);
      EncodeFront(ix);
      assert Encode(ix) == Encode(ix)[..n] + [Difference(ix, n)];
    }
  }

  lemma EmptyList()
    ensures Decode([]) == Some([]) && Increasing([])
  {
  }

  /** A list of 16-bit indexes survives the trip if and only if it is strictly increasing. */
  lemma {:induction false} DecodeEncode(ix: seq<nat>)
    requires Fits(ix)
    ensures Increasing(ix) ==> Decode(Encode(ix)) == Some(ix)
    ensures !Increasing(ix) ==> Decode(Encode(ix)).None?
    decreases |ix|
  {
    hide Decode, Increasing;
    EmptyList();
    if ix != [] {
      var n := |ix| - 1;
      var front := ix[..n];
      DecodeEncode(front);
      EncodeFront(ix);
      IncreasingFront(ix);
      DecodeLast(Encode(ix));
      assert ix == front + [ix[n]];
    }
  }

  lemma EncodeFront(ix: seq<nat>)
    requires ix != []
    ensures Encode(ix)[..|ix| - 1] == Encode(ix[..|ix| - 1])
  {
    assert forall i :: 0 <= i < |ix| - 1 ==> Difference(ix, i) == Difference(ix[..|ix| - 1], i);
  }

  lemma IncreasingFront(ix: seq<nat>)
    requires ix != []
    ensures var n := |ix| - 1; Increasing(ix) <==> Increasing(ix[..n]) && (n > 0 ==> ix[n - 1] < ix[n])
  {
    var n := |ix| - 1;
    if Increasing(ix[..n]) && (n > 0 ==> ix[n - 1] < ix[n]) {
      forall i | 0 < i < |ix| ensures ix[i - 1] < ix[i] {
        if i < n { assert ix[..n][i - 1] < ix[..n][i]; }
      }
    }
  }

  lemma DecodeLast(d: seq<nat>)
    requires d != []
    ensures Decode(d) == Extend(Decode(d[..|d| - 1]), d[|d| - 1])
  {
  }

  /** The in-place version: first the numbers are read, then summed up with a running offset. */
  method ReadIndexes(d: seq<nat>) returns (r: Option<seq<nat>>)
    ensures r == Decode(d)
  {
    var i := 0;
    while i < |d|
      invariant 0 <= i <= |d| && forall j :: 0 <= j < i ==> d[j] <= MAX_INDEX
    {
      if d[i] > MAX_INDEX {
        TooLarge(d, i);
        return None;
      }
      i := i + 1;
    }
    var indexes := d;
    var offset, j := 0, 0;
    while j < |indexes|
      invariant 0 <= j <= |indexes| == |d| && Decode(d[..j]) == Some(indexes[..j])
      invariant forall k :: j <= k < |d| ==> indexes[k] == d[k]
      invariant offset == if j == 0 then 0 else indexes[j - 1] + 1
    {
      assert d[..j + 1][..j] == d[..j];
      if indexes[j] + offset > MAX_INDEX {
        NoneStays(d, j + 1);
        return None;
      }
      ghost var front := indexes[..j];
      indexes := indexes[j := indexes[j] + offset];
      assert indexes[..j + 1] == front + [indexes[j]];
      offset := indexes[j] + 1;
      j := j + 1;
    }
    assert d[..j] == d && indexes[..j] == indexes;
    return Some(indexes);
  }

  lemma {:induction false} NoneStays(d: seq<nat>, n: nat)
    requires n <= |d| && Decode(d[..n]).None?
    ensures Decode(d).None?
    decreases |d|
  {
    if n < |d| {
      assert d[..|d| - 1][..n] == d[..n];
      NoneStays(d[..|d| - 1], n);
    } else {
      assert d[..n] == d;
    }
  }

  lemma TooLarge(d: seq<nat>, i: nat)
    requires i < |d| && d[i] > MAX_INDEX
    ensures Decode(d).None?
  {
    assert Decode(d[..i + 1]).None?;
    NoneStays(d, i + 1);
  }
}
