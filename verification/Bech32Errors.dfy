/** Two wrong values, up to 89 places apart, change the remainder: the order of the generator at work. */
module Bech32Errors {
  import opened Bech32Checksum

  // ----- multiples of a word

  /** Every coefficient times {2}, the generator of the field's non-zero elements. */
  function Doubled(w: bv32): bv32 {
    Xor(Xor(Moved(w), Carry(w)), Carry3(w))
  }

  /** The four low bits of each coefficient move up; the high one becomes {9}. */
  function Moved(w: bv32): bv32 {
    (w & 0x1ef7bdef) << 1
  }

  function Carry(w: bv32): bv32 {
    (w & 0x21084210) >> 4
  }

  function Carry3(w: bv32): bv32 {
    (w & 0x21084210) >> 1
  }

  lemma MovedLinear(a: bv32, b: bv32)
    ensures Moved(Xor(a, b)) == Xor(Moved(a), Moved(b))
  {
  }

  lemma CarryLinear(a: bv32, b: bv32)
    ensures Carry(Xor(a, b)) == Xor(Carry(a), Carry(b)) && Carry3(Xor(a, b)) == Xor(Carry3(a), Carry3(b))
  {
  }

  lemma DoubledLinear(a: bv32, b: bv32)
    ensures Doubled(Xor(a, b)) == Xor(Doubled(a), Doubled(b))
  {
    hide Moved, Carry, Carry3, Xor;
    MovedLinear(a, b);
    CarryLinear(a, b);
    XorSwap(Moved(a), Moved(b), Carry(a), Carry(b));
    XorSwap(Xor(Moved(a), Carry(a)), Xor(Moved(b), Carry(b)), Carry3(a), Carry3(b));
  }

  lemma DoubledSmall(w: bv32)
    requires w < 0x4000_0000
    ensures Doubled(w) < 0x4000_0000 && (Doubled(w) < 32 <==> w < 32)
  {
  }

  function Top(w: bv32): bv32 {
    w & 0x3e00_0000
  }

  function Rest(w: bv32): bv32 {
    w & 0x01ff_ffff
  }

  lemma SplitWord(w: bv32)
    requires w < 0x4000_0000
    ensures w == Xor(Top(w), Rest(w)) && Rest(w) < 0x200_0000
  {
  }

  lemma RestDoubled(w: bv32)
    requires w < 0x200_0000
    ensures Step(Doubled(w), 0) == Doubled(Step(w, 0))
  {
  }

  lemma TopDoubled(w: bv32)
    requires Top(w) == w
    ensures Step(Doubled(w), 0) == Doubled(Step(w, 0))
  {
  }

  /** A step respects multiples. */
  lemma StepDoubled(w: bv32)
    requires w < 0x4000_0000
    ensures Step(Doubled(w), 0) == Doubled(Step(w, 0))
  {
    hide Step, Doubled, Xor, Rest;
    SplitWord(w);
    TopTop(w);
    RestDoubled(Rest(w));
    TopDoubled(Top(w));
    DoubledLinear(Top(w), Rest(w));
    XorLaws(0, 0);
    StepLinear(Doubled(Top(w)), Doubled(Rest(w)), 0, 0);
    StepLinear(Top(w), Rest(w), 0, 0);
    DoubledLinear(Step(Top(w), 0), Step(Rest(w), 0));
  }

  lemma TopTop(w: bv32)
    ensures Top(Top(w)) == Top(w)
  {
  }

  lemma {:induction false} PolyDoubled(c: bv32, d: nat)
    requires c < 0x4000_0000
    ensures Poly(Doubled(c), Zeros(d)) == Doubled(Poly(c, Zeros(d)))
  {
    hide Step, Doubled;
    if d > 0 {
      PolyDoubled(c, d - 1);
      assert Zeros(d)[..d - 1] == Zeros(d - 1);
      PolySmall(c, Zeros(d - 1));
      StepDoubled(Poly(c, Zeros(d - 1)));
    }
  }

  // ----- how long it takes to come back to a single value

  /** The word after n steps. */
  function After(c: bv32, n: nat): bv32
    decreases n
  {
    if n == 0 then c else After(Step(c, 0), n - 1)
  }

  /** None of the next n words is a single value. */
  predicate FarFrom(c: bv32, n: nat)
    decreases n
  {
    n == 0 || (Step(c, 0) >= 32 && FarFrom(Step(c, 0), n - 1))
  }

  lemma {:induction false} AfterIsPoly(c: bv32, n: nat)
    ensures After(c, n) == Poly(c, Zeros(n))
    decreases n
  {
    hide Step;
    if n > 0 {
      AfterIsPoly(Step(c, 0), n - 1);
      PolyAppend(c, [0], Zeros(n - 1));
      assert [0] + Zeros(n - 1) == Zeros(n);
      assert Poly(c, [0]) == Step(Poly(c, [0][..0]), 0);
      NoValues(c);
    }
  }

  lemma {:induction false} FarAt(c: bv32, n: nat, d: nat)
    requires FarFrom(c, n) && 0 < d <= n
    ensures After(c, d) >= 32
    decreases d
  {
    hide Step;
    if d > 1 { FarAt(Step(c, 0), n - 1, d - 1); }
  }

  /** Five steps at once, or zero if one of them leads to a single value. */
  function Five(c: bv32): bv32 {
    var c1 := Step(c, 0);
    var c2 := Step(c1, 0);
    var c3 := Step(c2, 0);
    var c4 := Step(c3, 0);
    var c5 := Step(c4, 0);
    if c1 >= 32 && c2 >= 32 && c3 >= 32 && c4 >= 32 && c5 >= 32 then c5 else 0
  }

  lemma FarNone(c: bv32)
    ensures FarFrom(c, 0)
  {
  }

  lemma FarMore(c: bv32, n: nat)
    requires Step(c, 0) >= 32 && FarFrom(Step(c, 0), n)
    ensures FarFrom(c, n + 1)
  {
    hide Step;
  }

  lemma FiveFar(c: bv32, n: nat)
    requires Five(c) != 0 && FarFrom(Five(c), n)
    ensures FarFrom(c, n + 5)
  {
    hide Step, FarFrom;
    var c1 := Step(c, 0);
    var c2 := Step(c1, 0);
    var c3 := Step(c2, 0);
    var c4 := Step(c3, 0);
    FarMore(c4, n);
    FarMore(c3, n + 1);
    FarMore(c2, n + 2);
    FarMore(c1, n + 3);
    FarMore(c, n + 4);
  }

  lemma Leap(c: bv32, to: bv32, n: nat)
    requires LeapsTo(c, to) && FarFrom(to, n)
    ensures FarFrom(c, n + 5)
  {
    hide FarFrom, Five;
    FiveFar(c, n);
  }

  predicate LeapsTo(c: bv32, to: bv32) {
    Five(c) == to && to != 0
  }

  lemma FarFrom75()
    ensures FarFrom(0x3ea82e23, 15)
  {
    hide FarFrom;
    FarNone(0x339d7ddd);
    Leap(0x12564f79, 0x339d7ddd, 0);
    Leap(0x33295b93, 0x12564f79, 5);
    Leap(0x3ea82e23, 0x33295b93, 10);
  }

  lemma FarFrom60()
    requires FarFrom(0x3ea82e23, 15)
    ensures FarFrom(0x28686d2, 30)
  {
    hide FarFrom;
    Leap(0x1fbfd2ef, 0x3ea82e23, 15);
    Leap(0x1f342f8c, 0x1fbfd2ef, 20);
    Leap(0x28686d2, 0x1f342f8c, 25);
  }

  lemma FarFrom45()
    requires FarFrom(0x28686d2, 30)
    ensures FarFrom(0x21127cdf, 45)
  {
    hide FarFrom;
    Leap(0x3c27ac05, 0x28686d2, 30);
    Leap(0x6e1c70e, 0x3c27ac05, 35);
    Leap(0x21127cdf, 0x6e1c70e, 40);
  }

  lemma FarFrom30()
    requires FarFrom(0x21127cdf, 45)
    ensures FarFrom(0x3e97b75e, 60)
  {
    hide FarFrom;
    Leap(0x2418480a, 0x21127cdf, 45);
    Leap(0x24a559e0, 0x2418480a, 50);
    Leap(0x3e97b75e, 0x24a559e0, 55);
  }

  lemma FarFrom15()
    requires FarFrom(0x3e97b75e, 60)
    ensures FarFrom(0x2a465b57, 75)
  {
    hide FarFrom;
    Leap(0x2c5fb3f9, 0x3e97b75e, 60);
    Leap(0x14dc0c20, 0x2c5fb3f9, 65);
    Leap(0x2a465b57, 0x14dc0c20, 70);
  }

  lemma FarFrom0()
    requires FarFrom(0x2a465b57, 75)
    ensures FarFrom(1, 90)
  {
    hide FarFrom;
    Leap(0x81318a1, 0x2a465b57, 75);
    Leap(0x2000000, 0x81318a1, 80);
    Leap(1, 0x2000000, 85);
  }

  /** The value 1 does not come back to a single value within ninety steps. */
  lemma FarNinety()
    ensures FarFrom(1, 90)
  {
    hide FarFrom;
    FarFrom75();
    FarFrom60();
    FarFrom45();
    FarFrom30();
    FarFrom15();
    FarFrom0();
  }

  lemma UnitFar(d: nat)
    requires 0 < d <= 90
    ensures Poly(1, Zeros(d)) >= 32
  {
    FarNinety();
    FarAt(1, 90, d);
    AfterIsPoly(1, d);
  }

  lemma DoubleFar(c: bv32, d: nat)
    requires c < 32 && Poly(c, Zeros(d)) >= 32
    ensures Poly(Doubled(c), Zeros(d)) >= 32
  {
    hide Doubled, Poly;
    PolyDoubled(c, d);
    PolySmall(c, Zeros(d));
    DoubledSmall(Poly(c, Zeros(d)));
  }

  /** The powers of {2}. */
  function Power(k: nat): bv32 {
    if k == 0 then 1 else Doubled(Power(k - 1))
  }

  lemma {:induction false} PowerFar(k: nat, d: nat)
    requires 0 < d <= 90
    ensures Power(k) < 32 && Poly(Power(k), Zeros(d)) >= 32
  {
    hide Doubled, Poly;
    if k == 0 {
      UnitFar(d);
    } else {
      PowerFar(k - 1, d);
      DoubleFar(Power(k - 1), d);
      DoubledSmall(Power(k - 1));
    }
  }

  lemma DoubledTo(c: bv32, k: nat, to: bv32)
    requires Power(k) == c && Doubled(c) == to
    ensures Power(k + 1) == to
  {
  }

  /** They are all values but zero. */
  lemma AllPowers()
    ensures Power(0) == 1 && Power(1) == 2 && Power(2) == 4 && Power(3) == 8
    ensures Power(4) == 16 && Power(5) == 9 && Power(6) == 18 && Power(7) == 13
    ensures Power(8) == 26 && Power(9) == 29 && Power(10) == 19 && Power(11) == 15
    ensures Power(12) == 30 && Power(13) == 21 && Power(14) == 3 && Power(15) == 6
    ensures Power(16) == 12 && Power(17) == 24 && Power(18) == 25 && Power(19) == 27
    ensures Power(20) == 31 && Power(21) == 23 && Power(22) == 7 && Power(23) == 14
    ensures Power(24) == 28 && Power(25) == 17 && Power(26) == 11 && Power(27) == 22
    ensures Power(28) == 5 && Power(29) == 10 && Power(30) == 20
  {
    hide Power;
    PowerZero();
    DoubledTo(1, 0, 2);
    DoubledTo(2, 1, 4);
    DoubledTo(4, 2, 8);
    DoubledTo(8, 3, 16);
    DoubledTo(16, 4, 9);
    DoubledTo(9, 5, 18);
    DoubledTo(18, 6, 13);
    DoubledTo(13, 7, 26);
    DoubledTo(26, 8, 29);
    DoubledTo(29, 9, 19);
    DoubledTo(19, 10, 15);
    DoubledTo(15, 11, 30);
    DoubledTo(30, 12, 21);
    DoubledTo(21, 13, 3);
    DoubledTo(3, 14, 6);
    DoubledTo(6, 15, 12);
    DoubledTo(12, 16, 24);
    DoubledTo(24, 17, 25);
    DoubledTo(25, 18, 27);
    DoubledTo(27, 19, 31);
    DoubledTo(31, 20, 23);
    DoubledTo(23, 21, 7);
    DoubledTo(7, 22, 14);
    DoubledTo(14, 23, 28);
    DoubledTo(28, 24, 17);
    DoubledTo(17, 25, 11);
    DoubledTo(11, 26, 22);
    DoubledTo(22, 27, 5);
    DoubledTo(5, 28, 10);
    DoubledTo(10, 29, 20);
  }

  lemma PowerZero()
    ensures Power(0) == 1
  {
  }

  lemma IsPower(c: bv32)
    requires 0 < c < 32
    ensures exists k: nat :: Power(k) == c
  {
    hide Power;
    AllPowers();
  }

  /** Neither does any other value. */
  lemma ValueFar(c: bv32, d: nat)
    requires 0 < d <= 90 && 0 < c < 32
    ensures Poly(c, Zeros(d)) >= 32
  {
    hide Poly, Power;
    IsPower(c);
    var k: nat :| Power(k) == c;
    PowerFar(k, d);
  }

  // ----- two errors

  /** The difference that an error makes to the remainder after d more values. */
  lemma OneError(c: bv32, a: bv32, e: bv32, mid: Values)
    ensures Xor(Poly(Step(c, a), mid), Poly(Step(c, Xor(a, e)), mid)) == Poly(e, Zeros(|mid|))
  {
    hide Step, Xor, Poly;
    var x, y := Step(c, a), Step(c, Xor(a, e));
    StepLinear(c, c, a, Xor(a, e));
    XorLaws(c, c);
    XorAssoc(a, a, e);
    XorLaws(a, a);
    XorLaws(e, e);
    StepZero(e);
    PolyLinear(x, y, mid, mid);
    SelfXor(mid);
  }

  lemma StepZero(e: bv32)
    ensures Step(0, e) == e
  {
    NothingShiftedOut(0, e);
  }

  /** Lists that differ in one or both of two places, up to 89 apart, have different remainders. */
  lemma TwoErrorsChangeRemainder(c: bv32, front: Values, a: bv32, a': bv32, mid: Values, b: bv32, b': bv32, back: Values)
    requires c < 0x4000_0000 && FiveBits(front) && FiveBits(mid) && FiveBits(back)
    requires a < 32 && a' < 32 && b < 32 && b' < 32 && (a != a' || b != b') && |mid| < 89
    ensures Poly(c, front + [a] + mid + [b] + back) != Poly(c, front + [a'] + mid + [b'] + back)
  {
    hide Poly, Xor, Step;
    var p := Poly(c, front);
    PolySmall(c, front);
    MiddleDiffers(p, a, a', mid, b, b');
    Middle(c, front, a, mid, b, back);
    Middle(c, front, a', mid, b', back);
    var x, y := Step(Poly(Step(p, a), mid), b), Step(Poly(Step(p, a'), mid), b');
    MiddleSmall(p, a, mid, b);
    MiddleSmall(p, a', mid, b');
    XorLaws(x, y);
    XorSmall(x, y);
    PolyLinear(x, y, back, back);
    SelfXor(back);
    XorLaws(Poly(x, back), Poly(y, back));
    if Poly(x, back) == Poly(y, back) { PolyKernel(Xor(x, y), |back|); }
  }

  lemma Middle(c: bv32, front: Values, a: bv32, mid: Values, b: bv32, back: Values)
    ensures Poly(c, front + [a] + mid + [b] + back) == Poly(Step(Poly(Step(Poly(c, front), a), mid), b), back)
  {
    hide Step, Poly;
    PolyAppend(c, front + [a] + mid + [b], back);
    OneMore(c, front + [a] + mid, b);
    PolyAppend(c, front + [a], mid);
    OneMore(c, front, a);
  }

  lemma OneMore(c: bv32, vs: Values, v: bv32)
    ensures Poly(c, vs + [v]) == Step(Poly(c, vs), v)
  {
    hide Step;
    assert (vs + [v])[..|vs|] == vs;
  }

  lemma MiddleSmall(p: bv32, a: bv32, mid: Values, b: bv32)
    requires p < 0x4000_0000 && a < 32 && b < 32 && FiveBits(mid)
    ensures Step(Poly(Step(p, a), mid), b) < 0x4000_0000
  {
    hide Step, Poly;
    StepSmall(p, a);
    PolySmall(Step(p, a), mid);
    StepSmall(Poly(Step(p, a), mid), b);
  }

  lemma MiddleDiffers(p: bv32, a: bv32, a': bv32, mid: Values, b: bv32, b': bv32)
    requires a < 32 && a' < 32 && b < 32 && b' < 32 && (a != a' || b != b') && |mid| < 89
    ensures Step(Poly(Step(p, a), mid), b) != Step(Poly(Step(p, a'), mid), b')
  {
    hide Step, Poly, Xor;
    var e, d, f := Xor(a, a'), |mid|, Xor(b, b');
    XorAssoc(a, a, a');
    XorLaws(a, a);
    XorLaws(a', a');
    XorLaws(a, a');
    XorLaws(b, b');
    XorFive(a, a');
    XorFive(b, b');
    OneError(p, a, e, mid);
    var x, y := Poly(Step(p, a), mid), Poly(Step(p, a'), mid);
    StepLinear(x, y, b, b');
    var w := Poly(e, Zeros(d));
    XorLaws(f, f);
    StepLinear(w, 0, 0, f);
    StepZero(f);
    XorLaws(w, w);
    OneMore(e, Zeros(d), 0);
    assert Zeros(d) + [0] == Zeros(d + 1);
    ErrorStays(e, d + 1, f);
    XorLaws(Step(x, b), Step(y, b'));
  }

  lemma ErrorStays(e: bv32, d: nat, f: bv32)
    requires e < 32 && f < 32 && (e != 0 || f != 0) && 0 < d <= 90
    ensures Xor(Poly(e, Zeros(d)), f) != 0
  {
    hide Poly, Xor;
    XorLaws(Poly(e, Zeros(d)), f);
    if e != 0 { ValueFar(e, d); } else { ZeroStays(d); }
  }

  lemma {:induction false} ZeroStays(d: nat)
    ensures Poly(0, Zeros(d)) == 0
  {
    hide Step;
    if d > 0 {
      ZeroStays(d - 1);
      assert Zeros(d)[..d - 1] == Zeros(d - 1);
      StepZero(0);
    }
  }
}
