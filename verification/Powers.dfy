/** Powers of two over the unbounded naturals, and the laws the other modules use. */
module Powers {

  function Pow2(e: nat): nat {
    if e == 0 then 1 else 2 * Pow2(e - 1)
  }

  lemma {:induction false} Positive(e: nat)
    ensures Pow2(e) >= 1
  {
    if e > 0 {
      Positive(e - 1);
    }
  }

  lemma {:induction false} Adds(a: nat, b: nat)
    ensures Pow2(a + b) == Pow2(a) * Pow2(b)
  {
    if a > 0 {
      Adds(a - 1, b);
      assert Pow2(a + b) == 2 * Pow2(a - 1 + b);
    }
  }

  lemma {:induction false} Monotone(a: nat, b: nat)
    requires a <= b
    ensures Pow2(a) <= Pow2(b)
    ensures a < b ==> Pow2(a) < Pow2(b)
  {
    Positive(a);
    if a < b {
      Monotone(a, b - 1);
      Positive(b - 1);
    }
  }

  /** A value below 2^(a+b), shifted right by b, is below 2^a. */
  lemma ShiftBound(x: nat, a: nat, b: nat)
    requires x < Pow2(a + b)
    ensures Pow2(b) > 0 && x / Pow2(b) < Pow2(a)
  {
    Positive(b);
    Adds(a, b);
    DivBelow(x, Pow2(a), Pow2(b));
  }

  lemma DivBelow(x: nat, a: nat, b: nat)
    requires b > 0 && x < a * b
    ensures x / b < a
  {
    assert x == x / b * b + x % b;
    if x / b >= a {
      MulMonotone(a, x / b, b);
    }
  }

  lemma MulMonotone(a: nat, b: nat, c: nat)
    requires a <= b
    ensures a * c <= b * c
  {
    assert b * c == a * c + (b - a) * c;
  }
}
