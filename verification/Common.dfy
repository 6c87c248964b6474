/** Types shared by the models: bytes, machine words, Option, and powers of two. */
module Common {
  type byte = x: int | 0 <= x < 0x100
  type Bytes = seq<byte>

  datatype Option<+T> = None | Some(value: T)

  const TWO_32: int := 0x1_0000_0000
  const TWO_64: int := 0x1_0000_0000_0000_0000

  function Pow2(n: nat): (p: nat)
    ensures p > 0
  {
    if n == 0 then 1 else 2 * Pow2(n - 1)
  }

  lemma Pow2Step(n: nat)
    requires n > 0
    ensures Pow2(n) == 2 * Pow2(n - 1)
  {
  }

  lemma {:induction false} Pow2Add(a: nat, b: nat)
    ensures Pow2(a + b) == Pow2(a) * Pow2(b)
  {
    if a != 0 {
      Pow2Add(a - 1, b);
      assert Pow2(a + b) == 2 * (Pow2(a - 1) * Pow2(b));
    }
  }

  lemma {:induction false} Pow2Mono(a: nat, b: nat)
    requires a <= b
    ensures Pow2(a) <= Pow2(b)
    ensures a < b ==> 2 * Pow2(a) <= Pow2(b)
  {
    if a < b {
      Pow2Mono(a, b - 1);
    }
  }

  /** The quotient and remainder of a division by a positive number are unique. */
  lemma DivUnique(x: int, m: int, q: int, r: int)
    requires m > 0 && 0 <= r < m && x == q * m + r
    ensures x / m == q && x % m == r
  {
    MulBetween(q - x / m, m, x % m - r);
  }

  /** The low `n` bits of a word, and the word shifted right by `n`. */
  function Low(x: nat, n: nat): nat { x % Pow2(n) }

  function High(x: nat, n: nat): int { x / Pow2(n) }

  lemma HighZero(x: nat)
    ensures High(x, 0) == x
  {
    assert Pow2(0) == 1;
  }

  lemma LowHigh(x: nat, n: nat, q: nat, r: nat)
    requires r < Pow2(n) && x == r + Pow2(n) * q
    ensures Low(x, n) == r && High(x, n) == q && q <= x
  {
    hide Pow2;
    DivUnique(x, Pow2(n), q, r);
    MulMono(1, Pow2(n), q);
  }

  lemma TwoStepDivision(v: int, a: nat, b: nat)
    requires a > 0 && b > 0
    ensures a * b > 0 && v / a / b == v / (a * b)
  {
    MulMono(1, a, b);
    var q, r := v / a, v % a;
    var q2, r2 := q / b, q % b;
    assert v == q * a + r && q == q2 * b + r2;
    MulDistrib(q2 * b, r2, a);
    MulAssoc(q2, b, a);
    MulMono(r2, b - 1, a);
    MulDistrib(b, -1, a);
    DivUnique(v, a * b, q2, r2 * a + r);
  }

  lemma MulBetween(d: int, m: int, e: int)
    requires m > 0 && -m < e < m && d * m == e
    ensures d == 0 && e == 0
  {
    if d >= 1 {
      MulMono(1, d, m);
    } else if d <= -1 {
      MulMono(d, -1, m);
    }
  }

  // Powers of two the models use.

  lemma Pow2Of8()
    ensures Pow2(8) == 0x100
  {
  }

  lemma Pow2Of24()
    ensures Pow2(16) == 0x1_0000 && Pow2(24) == 0x100_0000
  {
    Pow2Of8();
    hide Pow2;
    Pow2Add(8, 8);
    Pow2Add(16, 8);
  }

  lemma Pow2Of64()
    ensures Pow2(32) == TWO_32 && Pow2(48) == 0x1_0000_0000_0000 && Pow2(56) == 0x100_0000_0000_0000
            && Pow2(64) == TWO_64
  {
    Pow2Of24();
    hide Pow2;
    Pow2Add(16, 16);
    Pow2Add(32, 16);
    Pow2Add(32, 24);
    Pow2Add(32, 32);
  }

  lemma MulDistrib(a: int, b: int, c: int)
    ensures (a + b) * c == a * c + b * c
  {
  }

  lemma MulAssoc(a: int, b: int, c: int)
    ensures (a * b) * c == a * (b * c)
  {
  }

  lemma MulMono(a: int, b: int, c: int)
    requires a <= b && c >= 0
    ensures a * c <= b * c
  {
    assert (b - a) * c >= 0;
  }

  lemma MulLe(a: int, b: int, c: int, d: int)
    requires 0 <= a <= c && 0 <= b <= d
    ensures 0 <= a * b <= c * d
  {
    MulMono(a, c, b);
    MulMono(b, d, c);
  }
}
