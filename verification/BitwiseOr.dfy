/** Bitwise or and and on natural numbers. */
module BitwiseOr {
  import opened Common

  function Or(a: nat, b: nat): nat
    decreases a + b
  {
    if a == 0 then b
    else if b == 0 then a
    else (if a % 2 == 1 || b % 2 == 1 then 1 else 0) + 2 * Or(a / 2, b / 2)
  }

  lemma OrStep(a: nat, b: nat)
    ensures Or(a, b) == (if a % 2 == 1 || b % 2 == 1 then 1 else 0) + 2 * Or(a / 2, b / 2)
  {
  }

  /** Or works on each field of `n` bits on its own. */
  lemma {:induction false} OrSplit(a: nat, b: nat, x: nat, y: nat, n: nat)
    requires a < Pow2(n) && b < Pow2(n)
    ensures Pow2(n) * x >= 0 && Pow2(n) * y >= 0
    ensures Or(a + Pow2(n) * x, b + Pow2(n) * y) == Or(a, b) + Pow2(n) * Or(x, y)
    ensures Or(a, b) < Pow2(n)
  {
    if n == 0 {
      assert Pow2(0) == 1;
    } else {
      OrSplit(a / 2, b / 2, x, y, n - 1);
      HalfOf(a, x, n);
      HalfOf(b, y, n);
      OrStep(a, b);
      OrStep(a + Pow2(n) * x, b + Pow2(n) * y);
      MulAssoc(2, Pow2(n - 1), Or(x, y));
    }
  }

  lemma HalfOf(a: nat, x: nat, n: nat)
    requires n > 0
    ensures Pow2(n) * x >= 0
    ensures (a + Pow2(n) * x) % 2 == a % 2 && (a + Pow2(n) * x) / 2 == a / 2 + Pow2(n - 1) * x
  {
    MulAssoc(2, Pow2(n - 1), x);
    MulLe(0, 0, Pow2(n), x);
  }

  /** Fields that do not overlap are added. */
  lemma OrDisjoint(a: nat, x: nat, n: nat)
    requires a < Pow2(n)
    ensures Pow2(n) * x >= 0 && Or(a, Pow2(n) * x) == a + Pow2(n) * x
  {
    OrSplit(a, 0, 0, x, n);
  }

  lemma OrZero(a: nat)
    ensures Or(0, a) == a == Or(a, 0)
  {
  }

  function And(a: nat, b: nat): nat {
    if a == 0 then 0 else (if a % 2 == 1 && b % 2 == 1 then 1 else 0) + 2 * And(a / 2, b / 2)
  }

  lemma AndStep(a: nat, b: nat)
    ensures And(a, b) == (if a % 2 == 1 && b % 2 == 1 then 1 else 0) + 2 * And(a / 2, b / 2)
  {
  }

  /** So does and. */
  lemma {:induction false} AndSplit(a: nat, b: nat, x: nat, y: nat, n: nat)
    requires a < Pow2(n) && b < Pow2(n)
    ensures Pow2(n) * x >= 0 && Pow2(n) * y >= 0
    ensures And(a + Pow2(n) * x, b + Pow2(n) * y) == And(a, b) + Pow2(n) * And(x, y)
  {
    if n == 0 {
      assert Pow2(0) == 1;
    } else {
      AndSplit(a / 2, b / 2, x, y, n - 1);
      HalfOf(a, x, n);
      HalfOf(b, y, n);
      AndStep(a, b);
      AndStep(a + Pow2(n) * x, b + Pow2(n) * y);
      MulAssoc(2, Pow2(n - 1), And(x, y));
    }
  }

  lemma {:induction false} AndNothing(a: nat)
    ensures And(a, 0) == 0
  {
    if a != 0 {
      AndNothing(a / 2);
    }
  }

  /** With a mask of `n` ones, the low `n` bits are left. */
  lemma {:induction false} AndLow(a: nat, n: nat)
    ensures And(a, Pow2(n) - 1) == a % Pow2(n)
  {
    if n == 0 {
      AndNothing(a);
    } else {
      hide Pow2, And;
      Pow2Step(n);
      AndLow(a / 2, n - 1);
      AndStep(a, Pow2(n) - 1);
      LowStep(a, Pow2(n - 1));
    }
  }

  lemma LowStep(a: nat, p: nat)
    requires p > 0
    ensures a % (2 * p) == a % 2 + 2 * (a / 2 % p)
  {
    var q, r := a / 2 / p, a / 2 % p;
    assert a / 2 == q * p + r;
    MulAssoc(q, 2, p);
    assert a == q * (2 * p) + (a % 2 + 2 * r);
    DivUnique(a, 2 * p, q, a % 2 + 2 * r);
  }
}
