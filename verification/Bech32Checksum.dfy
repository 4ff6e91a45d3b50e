/** The Bech32 checksum: a remainder of polynomials over GF(32), packed into a 30-bit word. */
module Bech32Checksum {

  type Values = seq<bv32>

  predicate FiveBits(vs: Values) {
    forall i :: 0 <= i < |vs| ==> vs[i] < 32
  }

  /** Addition in the field, for all coefficients of a word at once. */
  function Xor(a: bv32, b: bv32): bv32 {
    a ^ b
  }

  lemma XorAssoc(a: bv32, b: bv32, c: bv32)
    ensures Xor(Xor(a, b), c) == Xor(a, Xor(b, c))
  {
  }

  lemma XorCommutes(a: bv32, b: bv32)
    ensures Xor(a, b) == Xor(b, a)
  {
  }

  lemma XorSwap(a: bv32, b: bv32, c: bv32, d: bv32)
    ensures Xor(Xor(a, b), Xor(c, d)) == Xor(Xor(a, c), Xor(b, d))
  {
    hide Xor;
    XorAssoc(a, b, Xor(c, d));
    XorAssoc(b, c, d);
    XorCommutes(b, c);
    XorAssoc(c, b, d);
    XorAssoc(a, c, Xor(b, d));
  }

  lemma XorLaws(a: bv32, b: bv32)
    ensures Xor(a, a) == 0 && Xor(a, 0) == a == Xor(0, a) && (Xor(a, b) == 0 <==> a == b)
  {
  }

  // ----- one step

  /** Whether a bit of the coefficient that is shifted out is set. */
  predicate Has(c0: bv32, bit: bv32) {
    c0 & bit != 0
  }

  function Term(c0: bv32, bit: bv32, k: bv32): bv32 {
    if Has(c0, bit) then k else 0
  }

  /** The multiple of the generator for that coefficient. */
  function Feedback(c0: bv32): bv32 {
    Xor(Xor(Xor(Term(c0, 1, 0x3b6a57b2), Term(c0, 2, 0x26508e6d)), Xor(Term(c0, 4, 0x1ea119fa), Term(c0, 8, 0x3d4233dd))),
        Term(c0, 16, 0x2a1462b3))
  }

  function Shifted(c: bv32): bv32 {
    (c & 0x1ffffff) << 5
  }

  function Step(c: bv32, v: bv32): bv32 {
    Xor(Xor(Shifted(c), v), Feedback(c >> 25))
  }

  // ----- linearity

  lemma HasXor(a: bv32, b: bv32, bit: bv32)
    requires bit == 1 || bit == 2 || bit == 4 || bit == 8 || bit == 16
    ensures Has(Xor(a, b), bit) <==> Has(a, bit) != Has(b, bit)
  {
  }

  lemma TermLinear(a: bv32, b: bv32, bit: bv32, k: bv32)
    requires bit == 1 || bit == 2 || bit == 4 || bit == 8 || bit == 16
    ensures Term(Xor(a, b), bit, k) == Xor(Term(a, bit, k), Term(b, bit, k))
  {
    hide Has, Xor;
    HasXor(a, b, bit);
    XorLaws(k, k);
    XorLaws(0, 0);
  }

  lemma FeedbackLinear(a: bv32, b: bv32)
    ensures Feedback(Xor(a, b)) == Xor(Feedback(a), Feedback(b))
  {
    hide Term, Xor;
    TermLinear(a, b, 1, 0x3b6a57b2);
    TermLinear(a, b, 2, 0x26508e6d);
    TermLinear(a, b, 4, 0x1ea119fa);
    TermLinear(a, b, 8, 0x3d4233dd);
    TermLinear(a, b, 16, 0x2a1462b3);
    FiveSums(Term(a, 1, 0x3b6a57b2), Term(a, 2, 0x26508e6d), Term(a, 4, 0x1ea119fa),
             Term(a, 8, 0x3d4233dd), Term(a, 16, 0x2a1462b3),
             Term(b, 1, 0x3b6a57b2), Term(b, 2, 0x26508e6d), Term(b, 4, 0x1ea119fa),
             Term(b, 8, 0x3d4233dd), Term(b, 16, 0x2a1462b3));
  }

  lemma FiveSums(a1: bv32, a2: bv32, a3: bv32, a4: bv32, a5: bv32, b1: bv32, b2: bv32, b3: bv32, b4: bv32, b5: bv32)
    ensures Xor(Xor(Xor(Xor(a1, b1), Xor(a2, b2)), Xor(Xor(a3, b3), Xor(a4, b4))), Xor(a5, b5))
         == Xor(Xor(Xor(Xor(a1, a2), Xor(a3, a4)), a5), Xor(Xor(Xor(b1, b2), Xor(b3, b4)), b5))
  {
    hide Xor;
    XorSwap(a1, b1, a2, b2);
    XorSwap(a3, b3, a4, b4);
    XorSwap(Xor(a1, a2), Xor(b1, b2), Xor(a3, a4), Xor(b3, b4));
    XorSwap(Xor(Xor(a1, a2), Xor(a3, a4)), Xor(Xor(b1, b2), Xor(b3, b4)), a5, b5);
  }

  lemma ShiftLinear(a: bv32, b: bv32)
    ensures Shifted(Xor(a, b)) == Xor(Shifted(a), Shifted(b)) && Xor(a, b) >> 25 == Xor(a >> 25, b >> 25)
  {
  }

  /** A step is linear in the word and the value together. */
  lemma StepLinear(a: bv32, b: bv32, u: bv32, v: bv32)
    ensures Step(Xor(a, b), Xor(u, v)) == Xor(Step(a, u), Step(b, v))
  {
    hide Feedback, Shifted, Xor;
    ShiftLinear(a, b);
    FeedbackLinear(a >> 25, b >> 25);
    XorSwap(Shifted(a), Shifted(b), u, v);
    XorSwap(Xor(Shifted(a), u), Xor(Shifted(b), v), Feedback(a >> 25), Feedback(b >> 25));
  }

  lemma StepSmall(c: bv32, v: bv32)
    requires c < 0x4000_0000 && v < 32
    ensures Step(c, v) < 0x4000_0000
  {
  }

  /** Nothing but zero is taken to zero. */
  lemma StepKernel(c: bv32)
    requires c < 0x4000_0000 && Step(c, 0) == 0
    ensures c == 0
  {
  }

  // ----- the remainder of a whole list

  function Poly(c: bv32, vs: Values): bv32 {
    if vs == [] then c else Step(Poly(c, vs[..|vs| - 1]), vs[|vs| - 1])
  }

  lemma {:induction false} PolyAppend(c: bv32, a: Values, b: Values)
    ensures Poly(c, a + b) == Poly(Poly(c, a), b)
    decreases |b|
  {
    hide Step;
    if b == [] {
      assert a + b == a;
    } else {
      PolyAppend(c, a, b[..|b| - 1]);
      assert (a + b)[..|a + b| - 1] == a + b[..|b| - 1];
    }
  }

  lemma {:induction false} PolySmall(c: bv32, vs: Values)
    requires c < 0x4000_0000 && FiveBits(vs)
    ensures Poly(c, vs) < 0x4000_0000
    decreases |vs|
  {
    hide Step;
    if vs != [] {
      PolySmall(c, vs[..|vs| - 1]);
      StepSmall(Poly(c, vs[..|vs| - 1]), vs[|vs| - 1]);
    }
  }

  function XorAll(us: Values, vs: Values): (r: Values)
    requires |us| == |vs|
    ensures |r| == |us| && forall i :: 0 <= i < |r| ==> r[i] == Xor(us[i], vs[i])
  {
    seq(|us|, i requires 0 <= i < |us| => Xor(us[i], vs[i]))
  }

  lemma {:induction false} PolyLinear(a: bv32, b: bv32, us: Values, vs: Values)
    requires |us| == |vs|
    ensures Poly(Xor(a, b), XorAll(us, vs)) == Xor(Poly(a, us), Poly(b, vs))
    decreases |us|
  {
    hide Step, Xor;
    if us != [] {
      var n := |us| - 1;
      PolyLinear(a, b, us[..n], vs[..n]);
      assert XorAll(us, vs)[..n] == XorAll(us[..n], vs[..n]);
      StepLinear(Poly(a, us[..n]), Poly(b, vs[..n]), us[n], vs[n]);
    }
  }

  function Zeros(n: nat): (r: Values)
    ensures |r| == n && forall i :: 0 <= i < n ==> r[i] == 0
  {
    seq(n, i => 0)
  }

  lemma {:induction false} PolyKernel(c: bv32, n: nat)
    requires c < 0x4000_0000 && Poly(c, Zeros(n)) == 0
    ensures c == 0
    decreases n
  {
    hide Step;
    if n > 0 {
      assert Zeros(n)[..n - 1] == Zeros(n - 1);
      PolySmall(c, Zeros(n - 1));
      StepKernel(Poly(c, Zeros(n - 1)));
      PolyKernel(c, n - 1);
    }
  }

  // ----- up to six values

  function Limit(n: nat): bv32
    requires n <= 6
  {
    if n == 0 then 1 else if n == 1 then 0x20 else if n == 2 then 0x400 else if n == 3 then 0x8000
    else if n == 4 then 0x10_0000 else if n == 5 then 0x200_0000 else 0x4000_0000
  }

  lemma NothingShiftedOut(c: bv32, v: bv32)
    requires c < 0x200_0000
    ensures Step(c, v) == (c << 5) ^ v
  {
  }

  lemma Appended(c: bv32, v: bv32, limit: bv32)
    requires limit == 1 || limit == 0x20 || limit == 0x400 || limit == 0x8000 || limit == 0x10_0000 || limit == 0x200_0000
    requires c < limit && v < 32
    ensures (c << 5) ^ v < limit << 5 && ((c << 5) ^ v == 0 ==> c == 0 && v == 0)
  {
  }

  lemma ShortStep(c: bv32, v: bv32, n: nat)
    requires n < 6 && c < Limit(n) && v < 32
    ensures Step(c, v) < Limit(n + 1) && (Step(c, v) == 0 ==> c == 0 && v == 0)
  {
    hide Step;
    NothingShiftedOut(c, v);
    Appended(c, v, Limit(n));
    assert Limit(n) << 5 == Limit(n + 1);
  }

  /** As long as nothing is shifted out, only zeros give zero. */
  lemma {:induction false} ShortList(vs: Values)
    requires |vs| <= 6 && FiveBits(vs)
    ensures Poly(0, vs) < Limit(|vs|)
    ensures Poly(0, vs) == 0 ==> forall i :: 0 <= i < |vs| ==> vs[i] == 0
    decreases |vs|
  {
    hide Step;
    if vs != [] {
      var n := |vs| - 1;
      ShortList(vs[..n]);
      ShortStep(Poly(0, vs[..n]), vs[n], n);
    }
  }

  function Low(x: bv32): bv32 {
    x & 31
  }

  /** The six five-bit groups of a 30-bit word. */
  function Groups(w: bv32): (r: Values)
    ensures |r| == 6
  {
    [Low(w >> 25), Low(w >> 20), Low(w >> 15), Low(w >> 10), Low(w >> 5), Low(w)]
  }

  function Right(x: bv32): bv32 {
    x >> 5
  }

  /** What is left of a word without its last k groups. */
  function Part(w: bv32, k: nat): bv32 {
    if k == 0 then w else Right(Part(w, k - 1))
  }

  lemma Regroup(x: bv32)
    ensures ((x >> 5) << 5) ^ Low(x) == x
  {
  }

  lemma LastGroup(x: bv32)
    requires x < 0x4000_0000
    ensures Step(Right(x), Low(x)) == x && Right(x) < 0x4000_0000
  {
    hide Step;
    Regroup(x);
    NothingShiftedOut(x >> 5, Low(x));
  }

  lemma {:induction false} PartSmall(w: bv32, k: nat)
    requires w < 0x4000_0000
    ensures Part(w, k) < 0x4000_0000
    decreases k
  {
    hide Right;
    if k > 0 {
      PartSmall(w, k - 1);
      LastGroup(Part(w, k - 1));
    }
  }

  lemma PartStep(w: bv32, k: nat)
    requires w < 0x4000_0000
    ensures Step(Part(w, k + 1), Low(Part(w, k))) == Part(w, k)
  {
    hide Step, Low, Right;
    PartSmall(w, k);
    LastGroup(Part(w, k));
  }

  lemma PartShifts(w: bv32)
    requires w < 0x4000_0000
    ensures Part(w, 1) == w >> 5 && Part(w, 2) == w >> 10 && Part(w, 3) == w >> 15
    ensures Part(w, 4) == w >> 20 && Part(w, 5) == w >> 25 && Part(w, 6) == 0
  {
    hide Right;
    Shifts(w);
  }

  lemma Shifts(w: bv32)
    requires w < 0x4000_0000
    ensures Right(w) == w >> 5 && Right(w >> 5) == w >> 10 && Right(w >> 10) == w >> 15 && Right(w >> 15) == w >> 20
    ensures Right(w >> 20) == w >> 25 && Right(w >> 25) == 0
  {
  }

  lemma GroupsAreParts(w: bv32)
    requires w < 0x4000_0000
    ensures Part(w, 6) == 0
    ensures Groups(w) == [Low(Part(w, 5)), Low(Part(w, 4)), Low(Part(w, 3)), Low(Part(w, 2)), Low(Part(w, 1)), Low(Part(w, 0))]
  {
    hide Low, Part;
    PartShifts(w);
    PartZero(w);
  }

  lemma PartZero(w: bv32)
    ensures Part(w, 0) == w
  {
  }

  lemma LowIsSmall(x: bv32)
    ensures Low(x) < 32
  {
  }

  lemma GroupsAreSmall(w: bv32)
    ensures FiveBits(Groups(w))
  {
    hide Low;
    LowIsSmall(w >> 25);
    LowIsSmall(w >> 20);
    LowIsSmall(w >> 15);
    LowIsSmall(w >> 10);
    LowIsSmall(w >> 5);
    LowIsSmall(w);
  }

  /** The remainder of the groups of a word is the word. */
  lemma GroupsPack(w: bv32)
    requires w < 0x4000_0000
    ensures Poly(0, Groups(w)) == w && FiveBits(Groups(w))
  {
    hide Step, Poly, FiveBits, Low, Part, Groups;
    GroupsAreSmall(w);
    GroupsAreParts(w);
    PartStep(w, 5);
    PartStep(w, 4);
    PartStep(w, 3);
    PartStep(w, 2);
    PartStep(w, 1);
    PartStep(w, 0);
    PartZero(w);
    SixSteps(Groups(w));
  }

  lemma PolyNext(c: bv32, vs: Values, n: nat)
    requires n < |vs|
    ensures Poly(c, vs[..n + 1]) == Step(Poly(c, vs[..n]), vs[n])
  {
    hide Step;
    assert vs[..n + 1][..n] == vs[..n];
  }

  lemma SixSteps(g: Values)
    requires |g| == 6
    ensures Poly(0, g) == Step(Step(Step(Step(Step(Step(0, g[0]), g[1]), g[2]), g[3]), g[4]), g[5])
  {
    hide Step, Poly;
    NoValues(0);
    PolyNext(0, g, 0);
    PolyNext(0, g, 1);
    PolyNext(0, g, 2);
    PolyNext(0, g, 3);
    PolyNext(0, g, 4);
    PolyNext(0, g, 5);
    assert g[..0] == [] && g[..6] == g;
  }

  lemma NoValues(c: bv32)
    ensures Poly(c, []) == c
  {
  }

  // ----- detecting errors

  /** Lists that differ only within six consecutive values have different remainders. */
  lemma BurstChangesRemainder(c: bv32, front: Values, us: Values, vs: Values, back: Values)
    requires c < 0x4000_0000 && FiveBits(front) && FiveBits(us) && FiveBits(vs) && FiveBits(back)
    requires |us| == |vs| <= 6 && us != vs
    ensures Poly(c, front + us + back) != Poly(c, front + vs + back)
  {
    hide Poly, Xor;
    var p := Poly(c, front);
    var x, y := Poly(p, us), Poly(p, vs);
    PolySmall(c, front);
    DifferentMiddle(p, us, vs);
    PolySmall(p, us);
    PolySmall(p, vs);
    XorLaws(x, y);
    PolyLinear(x, y, back, back);
    SelfXor(back);
    assert XorAll(back, back) == Zeros(|back|);
    XorLaws(Poly(x, back), Poly(y, back));
    if Poly(x, back) == Poly(y, back) {
      XorSmall(x, y);
      PolyKernel(Xor(x, y), |back|);
    }
    PolyAppend(c, front, us);
    PolyAppend(c, front, vs);
    PolyAppend(c, front + us, back);
    PolyAppend(c, front + vs, back);
  }

  lemma SelfXor(vs: Values)
    ensures XorAll(vs, vs) == Zeros(|vs|)
  {
  }

  lemma XorSmall(a: bv32, b: bv32)
    requires a < 0x4000_0000 && b < 0x4000_0000
    ensures Xor(a, b) < 0x4000_0000
  {
  }

  lemma XorFive(a: bv32, b: bv32)
    requires a < 32 && b < 32
    ensures Xor(a, b) < 32
  {
  }

  lemma DifferentMiddle(p: bv32, us: Values, vs: Values)
    requires |us| == |vs| <= 6 && FiveBits(us) && FiveBits(vs) && us != vs
    ensures Poly(p, us) != Poly(p, vs)
  {
    hide Poly, Xor;
    var d := XorAll(us, vs);
    forall i | 0 <= i < |d| ensures d[i] < 32 && (d[i] == 0 <==> us[i] == vs[i]) {
      XorFive(us[i], vs[i]);
      XorLaws(us[i], vs[i]);
    }
    ShortList(d);
    XorLaws(p, p);
    PolyLinear(p, p, us, vs);
    XorLaws(Poly(p, us), Poly(p, vs));
  }

  /** The six values of a checksum bring the remainder to the wanted one, and no other six do. */
  lemma ChecksumIsUnique(c: bv32, vs: Values, wanted: bv32, tail: Values)
    requires c < 0x4000_0000 && wanted < 0x4000_0000 && FiveBits(vs) && |tail| == 6 && FiveBits(tail)
    ensures Poly(c, vs + tail) == wanted <==> tail == Groups(Xor(Poly(c, vs + Zeros(6)), wanted))
  {
    hide Poly, Xor, Groups, Zeros;
    var p := Poly(c, vs);
    var r := Poly(c, vs + Zeros(6));
    var w := Xor(r, wanted);
    var g := Groups(w);
    PolySmall(c, vs + Zeros(6));
    XorSmall(r, wanted);
    GroupsPack(w);
    PolyAppend(c, vs, Zeros(6));
    PolyAppend(c, vs, g);
    PolyLinear(p, 0, Zeros(6), g);
    XorLaws(p, p);
    ZeroXor(g);
    XorAssoc(r, r, wanted);
    XorLaws(r, r);
    XorLaws(wanted, wanted);
    assert Poly(c, vs + g) == wanted;
    PolyAppend(c, vs, tail);
    if tail != g { DifferentMiddle(p, tail, g); }
  }

  lemma ZeroXor(g: Values)
    requires |g| == 6
    ensures XorAll(Zeros(6), g) == g
  {
  }
}
