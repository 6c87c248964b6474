/** Products and digits of numbers in five limbs, for any weights that are the powers of one base. */
module FiveLimbs {
  import opened Common

  /** `w1` to `w8` are the powers of `w1`. */
  predicate Powers(w1: int, w2: int, w3: int, w4: int, w5: int, w6: int, w7: int, w8: int) {
    && w2 == w1 * w1 && w3 == w1 * w2 && w4 == w1 * w3 && w4 == w2 * w2
    && w5 == w1 * w4 && w5 == w2 * w3 && w6 == w2 * w4 && w6 == w3 * w3 && w7 == w3 * w4 && w8 == w4 * w4
  }

  /** A weighted sum times a number, term by term. */
  lemma Distribute5(a0: int, a1: int, a2: int, a3: int, a4: int, w1: int, w2: int, w3: int, w4: int, x: int)
    ensures (a0 + w1 * a1 + w2 * a2 + w3 * a3 + w4 * a4) * x
         == a0 * x + w1 * (a1 * x) + w2 * (a2 * x) + w3 * (a3 * x) + w4 * (a4 * x)
  {
    MulDistrib(a0 + w1 * a1 + w2 * a2 + w3 * a3, w4 * a4, x);
    MulDistrib(a0 + w1 * a1 + w2 * a2, w3 * a3, x);
    MulDistrib(a0 + w1 * a1, w2 * a2, x);
    MulDistrib(a0, w1 * a1, x);
    MulAssoc(w1, a1, x);
    MulAssoc(w2, a2, x);
    MulAssoc(w3, a3, x);
    MulAssoc(w4, a4, x);
  }

  /** A row of five partial products moved up by the weight `v`. */
  lemma Shifted(v: int, a0: int, a1: int, a2: int, a3: int, a4: int, w1: int, w2: int, w3: int, w4: int)
    ensures v * (a0 + w1 * a1 + w2 * a2 + w3 * a3 + w4 * a4)
         == v * a0 + v * w1 * a1 + v * w2 * a2 + v * w3 * a3 + v * w4 * a4
  {
  }

  /** The product of two five-limb numbers, by limb position. */
  lemma FullProduct(h0: int, h1: int, h2: int, h3: int, h4: int, r0: int, r1: int, r2: int, r3: int, r4: int,
      w1: int, w2: int, w3: int, w4: int, w5: int, w6: int, w7: int, w8: int)
    requires Powers(w1, w2, w3, w4, w5, w6, w7, w8)
    ensures (h0 + w1 * h1 + w2 * h2 + w3 * h3 + w4 * h4) * (r0 + w1 * r1 + w2 * r2 + w3 * r3 + w4 * r4)
         == h0 * r0 + w1 * (h0 * r1 + h1 * r0) + w2 * (h0 * r2 + h1 * r1 + h2 * r0)
            + w3 * (h0 * r3 + h1 * r2 + h2 * r1 + h3 * r0) + w4 * (h0 * r4 + h1 * r3 + h2 * r2 + h3 * r1 + h4 * r0)
            + w5 * (h1 * r4 + h2 * r3 + h3 * r2 + h4 * r1) + w6 * (h2 * r4 + h3 * r3 + h4 * r2)
            + w7 * (h3 * r4 + h4 * r3) + w8 * (h4 * r4)
  {
    var r := r0 + w1 * r1 + w2 * r2 + w3 * r3 + w4 * r4;
    Distribute5(h0, h1, h2, h3, h4, w1, w2, w3, w4, r);
    TimesLimb(h0, r0, r1, r2, r3, r4, w1, w2, w3, w4);
    TimesLimb(h1, r0, r1, r2, r3, r4, w1, w2, w3, w4);
    TimesLimb(h2, r0, r1, r2, r3, r4, w1, w2, w3, w4);
    TimesLimb(h3, r0, r1, r2, r3, r4, w1, w2, w3, w4);
    TimesLimb(h4, r0, r1, r2, r3, r4, w1, w2, w3, w4);
    Regroup(h0 * r, h1 * r, h2 * r, h3 * r, h4 * r,
            h0 * r0, h0 * r1, h0 * r2, h0 * r3, h0 * r4, h1 * r0, h1 * r1, h1 * r2, h1 * r3, h1 * r4,
            h2 * r0, h2 * r1, h2 * r2, h2 * r3, h2 * r4, h3 * r0, h3 * r1, h3 * r2, h3 * r3, h3 * r4,
            h4 * r0, h4 * r1, h4 * r2, h4 * r3, h4 * r4, w1, w2, w3, w4, w5, w6, w7, w8);
  }

  lemma TimesLimb(h: int, r0: int, r1: int, r2: int, r3: int, r4: int, w1: int, w2: int, w3: int, w4: int)
    ensures h * (r0 + w1 * r1 + w2 * r2 + w3 * r3 + w4 * r4)
         == h * r0 + w1 * (h * r1) + w2 * (h * r2) + w3 * (h * r3) + w4 * (h * r4)
  {
    Distribute5(r0, r1, r2, r3, r4, w1, w2, w3, w4, h);
  }

  /** 25 partial products sorted by position. */
  lemma Regroup(q0: int, q1: int, q2: int, q3: int, q4: int,
      a0: int, a1: int, a2: int, a3: int, a4: int, b0: int, b1: int, b2: int, b3: int, b4: int,
      c0: int, c1: int, c2: int, c3: int, c4: int, d0: int, d1: int, d2: int, d3: int, d4: int,
      e0: int, e1: int, e2: int, e3: int, e4: int,
      w1: int, w2: int, w3: int, w4: int, w5: int, w6: int, w7: int, w8: int)
    requires Powers(w1, w2, w3, w4, w5, w6, w7, w8)
    requires q0 == a0 + w1 * a1 + w2 * a2 + w3 * a3 + w4 * a4
    requires q1 == b0 + w1 * b1 + w2 * b2 + w3 * b3 + w4 * b4
    requires q2 == c0 + w1 * c1 + w2 * c2 + w3 * c3 + w4 * c4
    requires q3 == d0 + w1 * d1 + w2 * d2 + w3 * d3 + w4 * d4
    requires q4 == e0 + w1 * e1 + w2 * e2 + w3 * e3 + w4 * e4
    ensures q0 + w1 * q1 + w2 * q2 + w3 * q3 + w4 * q4
         == a0 + w1 * (a1 + b0) + w2 * (a2 + b1 + c0) + w3 * (a3 + b2 + c1 + d0) + w4 * (a4 + b3 + c2 + d1 + e0)
            + w5 * (b4 + c3 + d2 + e1) + w6 * (c4 + d3 + e2) + w7 * (d4 + e3) + w8 * e4
  {
    Shifted(w1, b0, b1, b2, b3, b4, w1, w2, w3, w4);
    Shifted(w2, c0, c1, c2, c3, c4, w1, w2, w3, w4);
    Shifted(w3, d0, d1, d2, d3, d4, w1, w2, w3, w4);
    Shifted(w4, e0, e1, e2, e3, e4, w1, w2, w3, w4);
    Sum5(w1, a1, b0, 0, 0, 0);
    Sum5(w2, a2, b1, c0, 0, 0);
    Sum5(w3, a3, b2, c1, d0, 0);
    Sum5(w4, a4, b3, c2, d1, e0);
    Sum5(w5, b4, c3, d2, e1, 0);
    Sum5(w6, c4, d3, e2, 0, 0);
    Sum5(w7, d4, e3, 0, 0, 0);
  }

  lemma Sum5(w: int, a: int, b: int, c: int, d: int, e: int)
    ensures w * (a + b + c + d + e) == w * a + w * b + w * c + w * d + w * e
  {
  }

  lemma Times(h: int, r: int, k: int)
    ensures h * (r * k) == k * (h * r)
  {
    MulAssoc(h, r, k);
  }

  /** Where the rows of a reduced product hold `k` times a limb, they hold `k` times a partial product. */
  lemma RowTerms(h0: int, h1: int, h2: int, h3: int, h4: int, r0: int, r1: int, r2: int, r3: int, r4: int, k: int)
    ensures h0 * r0 + h1 * (r4 * k) + h2 * (r3 * k) + h3 * (r2 * k) + h4 * (r1 * k)
         == h0 * r0 + k * (h1 * r4 + h2 * r3 + h3 * r2 + h4 * r1)
    ensures h0 * r1 + h1 * r0 + h2 * (r4 * k) + h3 * (r3 * k) + h4 * (r2 * k)
         == h0 * r1 + h1 * r0 + k * (h2 * r4 + h3 * r3 + h4 * r2)
    ensures h0 * r2 + h1 * r1 + h2 * r0 + h3 * (r4 * k) + h4 * (r3 * k)
         == h0 * r2 + h1 * r1 + h2 * r0 + k * (h3 * r4 + h4 * r3)
    ensures h4 * (r4 * k) == k * (h4 * r4)
  {
    Times(h1, r4, k);
    Times(h2, r3, k);
    Times(h3, r2, k);
    Times(h4, r1, k);
    Times(h2, r4, k);
    Times(h3, r3, k);
    Times(h4, r2, k);
    Times(h3, r4, k);
    Times(h4, r3, k);
    Times(h4, r4, k);
    Sum5(k, h1 * r4, h2 * r3, h3 * r2, h4 * r1, 0);
    Sum5(k, h2 * r4, h3 * r3, h4 * r2, 0, 0);
    Sum5(k, h3 * r4, h4 * r3, 0, 0, 0);
  }

  /** Five digits, the last one whatever is left. */
  lemma Stack(m0: nat, m1: nat, m2: nat, m3: nat, m4: nat, w1: int, w2: int, w3: int, w4: int)
    requires w1 > 0 && w2 == w1 * w1 && w3 == w2 * w1 && w4 == w3 * w1
    requires m0 / w1 == m1 && m1 / w1 == m2 && m2 / w1 == m3 && m3 / w1 == m4
    ensures m0 % w1 + w1 * (m1 % w1) + w2 * (m2 % w1) + w3 * (m3 % w1) + w4 * m4 == m0
  {
    Digit(m3, m4, w3, w1);
    Digit(m2, m3, w2, w1);
    Digit(m1, m2, w1, w1);
    Digit(m0, m1, 1, w1);
  }

  lemma Digit(m: nat, next: nat, v: int, w: int)
    requires w > 0 && m / w == next
    ensures v * m == v * (m % w) + v * w * next
  {
    assert m == m % w + w * next;
    MulAssoc(v, w, next);
    MulDistrib(m % w, w * next, v);
  }
}
