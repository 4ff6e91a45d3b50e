/** Powers of natural numbers. */
module Powers {

  function Pow(b: nat, e: nat): nat {
    if e == 0 then 1 else b * Pow(b, e - 1)
  }

  /** Monotone in the second factor. */
  lemma Times(a: nat, x: nat, y: nat)
    ensures x <= y ==> a * x <= a * y
  {
  }

  lemma {:induction false} PowAdd(b: nat, x: nat, y: nat)
    ensures Pow(b, x + y) == Pow(b, x) * Pow(b, y)
    decreases x
  {
    if x > 0 {
      PowAdd(b, x - 1, y);
      Assoc(b, Pow(b, x - 1), Pow(b, y));
    }
  }

  lemma Assoc(a: int, b: int, c: int)
    ensures a * (b * c) == (a * b) * c
  {
  }

  lemma {:induction false} PowPow(b: nat, x: nat, y: nat)
    ensures Pow(Pow(b, x), y) == Pow(b, x * y)
    decreases y
  {
    if y == 0 {
      assert x * y == 0;
    } else {
      PowPow(b, x, y - 1);
      PowAdd(b, x, x * (y - 1));
      assert x * y == x + x * (y - 1);
    }
  }

  lemma {:induction false} PowUp(b: nat, x: nat, y: nat)
    requires b > 0 && x <= y
    ensures 0 < Pow(b, x) <= Pow(b, y)
    decreases y
  {
    if x < y {
      PowUp(b, x, y - 1);
      Times(Pow(b, y - 1), 1, b);
    } else if x > 0 {
      PowUp(b, x - 1, y - 1);
      Times(b, 1, Pow(b, x - 1));
    }
  }

  function Pow2(n: nat): (r: nat)
    ensures r >= 1
  {
    PowUp(2, 0, n);
    Pow(2, n)
  }
}
