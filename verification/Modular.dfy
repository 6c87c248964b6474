/** Machine words, congruences, and products of five-limb numbers. */
module Modular {
  import opened Common
  import opened LittleEndian

  newtype u64 = x: int | 0 <= x < 0x1_0000_0000_0000_0000
  newtype u128 = x: int | 0 <= x < 0x1_0000_0000_0000_0000_0000_0000_0000_0000

  /** Numbers with the same residue. */
  predicate Congruent(a: int, b: int, p: int)
    requires p > 0
  {
    a % p == b % p
  }

  lemma CongruentBy(a: int, b: int, k: int, p: int)
    requires p > 0 && a == b + k * p
    ensures Congruent(a, b, p)
  {
    var q := b / p;
    assert b == q * p + b % p;
    MulDistrib(q, k, p);
    DivUnique(a, p, q + k, b % p);
  }

  /** Conversely, congruent numbers differ by a multiple. */
  lemma CongruentQuotient(a: int, b: int, p: int) returns (k: int)
    requires p > 0 && Congruent(a, b, p)
    ensures a == b + k * p
  {
    k := a / p - b / p;
    assert a == (a / p) * p + a % p;
    assert b == (b / p) * p + b % p;
    MulDistrib(a / p, -(b / p), p);
    MulAssoc(-1, b / p, p);
  }

  lemma CongruentReflexive(a: int, p: int)
    requires p > 0
    ensures Congruent(a, a, p)
  {
  }

  lemma CongruentSymmetric(a: int, b: int, p: int)
    requires p > 0 && Congruent(a, b, p)
    ensures Congruent(b, a, p)
  {
  }

  lemma CongruentTransitive(a: int, b: int, c: int, p: int)
    requires p > 0 && Congruent(a, b, p) && Congruent(b, c, p)
    ensures Congruent(a, c, p)
  {
  }

  lemma CongruentAdd(a: int, a': int, b: int, b': int, p: int)
    requires p > 0 && Congruent(a, a', p) && Congruent(b, b', p)
    ensures Congruent(a + b, a' + b', p) && Congruent(a - b, a' - b', p)
  {
    var k := CongruentQuotient(a, a', p);
    var l := CongruentQuotient(b, b', p);
    hide Congruent;
    MulDistrib(k, l, p);
    MulDistrib(k, -l, p);
    MulAssoc(-1, l, p);
    CongruentBy(a + b, a' + b', k + l, p);
    CongruentBy(a - b, a' - b', k - l, p);
  }

  lemma CongruentMul(a: int, a': int, b: int, b': int, p: int)
    requires p > 0 && Congruent(a, a', p) && Congruent(b, b', p)
    ensures Congruent(a * b, a' * b', p)
  {
    var k := CongruentQuotient(a, a', p);
    var l := CongruentQuotient(b, b', p);
    hide Congruent;
    // a*b == a'*b + (k*p)*b == a'*b' + a'*(l*p) + (k*b)*p
    MulDistrib(a', k * p, b);
    MulDistrib(b', l * p, a');
    assert a' * b == a' * b' + (l * p) * a';
    assert (l * p) * a' == (l * a') * p;
    assert (k * p) * b == (k * b) * p;
    MulDistrib(l * a', k * b, p);
    CongruentBy(a * b, a' * b', l * a' + k * b, p);
  }

  /** The least residue is congruent to its number, and congruent least residues are equal. */
  lemma Residue(a: int, p: int)
    requires p > 0
    ensures Congruent(a % p, a, p) && 0 <= a % p < p
  {
    var q := a / p;
    assert a == q * p + a % p;
    DivUnique(a % p, p, 0, a % p);
  }

  function Power(a: int, n: nat): int { if n == 0 then 1 else a * Power(a, n - 1) }

  // ---- loading a 64-bit word from a byte buffer; bytes past its end count as zero ----

  function Min(a: int, b: int): int { if a < b then a else b }

  function WordAt(buf: Bytes, off: nat): int
    requires off <= |buf|
  {
    Le(buf[off..Min(off + 8, |buf|)])
  }

  lemma NothingRead(buf: Bytes, off: nat)
    requires off <= |buf|
    ensures Le(buf[off..Min(off, |buf|)]) == 0 && Pow2(0) == 1
  {
  }

  method ReadU64At(buf: Bytes, off: nat) returns (v: u64)
    requires off <= |buf|
    ensures v as int == WordAt(buf, off)
  {
    hide Pow2, Le;
    v := 0;
    var i := 0;
    NothingRead(buf, off);
    while i < 8
      invariant 0 <= i <= 8
      invariant v as int == Le(buf[off..Min(off + i, |buf|)]) && v as int < Pow2(8 * i) <= TWO_64
    {
      var idx := off + i;
      Pow2Bytes(i);
      if idx < |buf| {
        LeSnoc(buf[off..idx], buf[idx]);
        assert buf[off..idx + 1] == buf[off..idx] + [buf[idx]];
        v := v + (Pow2(8 * i) * buf[idx]) as u64;
      }
      i := i + 1;
    }
  }

  lemma Pow2Bytes(i: nat)
    requires i < 8
    ensures Pow2(8 * (i + 1)) == 256 * Pow2(8 * i) && Pow2(8 * (i + 1)) <= TWO_64
  {
    Pow2Add(8, 8 * i);
    Pow2Mono(8 * (i + 1), 64);
    Pow2Of64();
    assert Pow2(8) == 256;
  }

  lemma LeSnoc(a: Bytes, b: byte)
    ensures Le(a + [b]) == Le(a) + Pow2(8 * |a|) * b
    ensures Pow2(8 * |a|) * b >= 0 && Le(a + [b]) < Pow2(8 * (|a| + 1))
  {
    hide Le, Pow2;
    LeConcat(a, [b]);
    LeOne(b);
    assert 8 * |a + [b]| == 8 * (|a| + 1);
  }

  lemma LeOne(b: byte)
    ensures Le([b]) == b
  {
    assert [b][1..] == [];
  }

  lemma LeEmpty()
    ensures Le([]) == 0
  {
  }

  lemma WordIsLow(buf: Bytes, off: nat)
    requires off <= |buf|
    ensures WordAt(buf, off) == Le(buf[off..]) % TWO_64
  {
    hide Le, Pow2;
    var k := Min(off + 8, |buf|) - off;
    var word, rest := buf[off..off + k], buf[off + k..];
    assert buf[off..] == word + rest;
    LeConcat(word, rest);
    Pow2Of64();
    if k == 8 {
      DivUnique(Le(buf[off..]), TWO_64, Le(rest), Le(word));
    } else {
      LeEmpty();
      Pow2Mono(8 * k, 64);
      DivUnique(Le(buf[off..]), TWO_64, 0, Le(word));
    }
  }

  lemma DropBytes(buf: Bytes, off: nat, k: nat)
    requires off + k <= |buf|
    ensures Le(buf[off..]) / Pow2(8 * k) == Le(buf[off + k..])
  {
    hide Le, Pow2;
    assert buf[off..] == buf[off..off + k] + buf[off + k..];
    LeConcat(buf[off..off + k], buf[off + k..]);
    DivUnique(Le(buf[off..]), Pow2(8 * k), Le(buf[off + k..]), Le(buf[off..off + k]));
  }

  /** A limb of width log2(m) that starts at bit log2(d) of a word and ends inside it. */
  lemma SameLimb(n: nat, w: nat, d: nat, m: nat, l: nat)
    requires d > 0 && m > 0 && w == n % TWO_64 && l * m * d == TWO_64
    ensures w / d % m == n / d % m
  {
    var k, q, r := n / TWO_64, w / d, w % d;
    assert n == TWO_64 * k + w && w == q * d + r;
    MulAssoc(k * l, m, d);
    MulAssoc(k, l, m * d);
    MulAssoc(l, m, d);
    assert (k * l) * m * d == k * TWO_64;
    MulDistrib((k * l) * m, q, d);
    DivUnique(n, d, (k * l) * m + q, r);
    CongruentBy((k * l) * m + q, q, k * l, m);
  }
}
