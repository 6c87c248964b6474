/**
 Field arithmetic modulo 2^255 - 19 in radix 2^51, as kernel/src/crypto/x25519.rs does it.
 Arithmetic on u64 and u128 is checked for overflow where it stands.
 */
module Field25519 {
  import opened Common
  import opened FiveLimbs
  import opened LittleEndian
  import opened Modular

  /** 2^255 - 19 */
  const P: int := 0x7FFF_FFFF_FFFF_FFFF_FFFF_FFFF_FFFF_FFFF_FFFF_FFFF_FFFF_FFFF_FFFF_FFFF_FFFF_FFED

  const W1: int := 0x8_0000_0000_0000
  const W2: int := 0x40_0000_0000_0000_0000_0000_0000
  const W3: int := 0x200_0000_0000_0000_0000_0000_0000_0000_0000_0000
  const W4: int := 0x1000_0000_0000_0000_0000_0000_0000_0000_0000_0000_0000_0000_0000
  const W5: int := W4 * W1
  const W6: int := W4 * W2
  const W7: int := W4 * W3
  const W8: int := W4 * W4

  type Fe = s: seq<u64> | |s| == 5 witness [0, 0, 0, 0, 0]
  type Wide = s: seq<u128> | |s| == 5 witness [0, 0, 0, 0, 0]

  /** The number five limbs stand for. */
  function Val(f: Fe): int
  {
    f[0] as int + W1 * f[1] as int + W2 * f[2] as int + W3 * f[3] as int + W4 * f[4] as int
  }

  function WideVal(t: Wide): int
  {
    t[0] as int + W1 * t[1] as int + W2 * t[2] as int + W3 * t[3] as int + W4 * t[4] as int
  }

  const LIMB: u64 := 0x8_0000_0000_0000         // 2^51
  const LIMB_1: u64 := 0x8_0000_0000_2000       // 2^51 + 2^13

  /** The bound every operation keeps: limbs below 2^51, except that limb 1 may exceed it a little. */
  predicate Reduced(f: Fe) { f[0] < LIMB && f[1] < LIMB_1 && f[2] < LIMB && f[3] < LIMB && f[4] < LIMB }

  predicate WideBounded(t: Wide, max: u128) { forall i :: 0 <= i < 5 ==> t[i] <= max }

  const WIDE_MAX: u128 := 0x2000_0000_0000_0000_0000_0000_0000        // 2^109

  function Shr51(x: u128): (c: u64)
    requires x <= 0x4000_0000_0000_0000_0000_0000_0000
  {
    (x / 0x8_0000_0000_0000) as u64
  }

  /** `(x as u64) & MASK51` */
  function Low51(x: u128): (m: u64)
    requires x <= 0x4000_0000_0000_0000_0000_0000_0000
    ensures m < LIMB && x as int == m as int + W1 * Shr51(x) as int
  {
    (x % 0x8_0000_0000_0000) as u64
  }

  /** Carries into 51-bit limbs; what leaves the top limb comes back nineteen times at the bottom. */
  function CarryReduce(t: Wide): (f: Fe)
    requires WideBounded(t, WIDE_MAX) && t[4] <= 0x1000_0000_0000_0000_0000_0000_0000   // 2^108
    ensures Reduced(f) && Congruent(Val(f), WideVal(t), P)
  {
    var c0 := Shr51(t[0]);
    var t1 := t[1] + c0 as u128;
    var c1 := Shr51(t1);
    var t2 := t[2] + c1 as u128;
    var c2 := Shr51(t2);
    var t3 := t[3] + c2 as u128;
    var c3 := Shr51(t3);
    var t4 := t[4] + c3 as u128;
    var c4 := Shr51(t4);
    var f0 := Low51(t[0]) + c4 * 19;
    var c5 := f0 / LIMB;
    var f: Fe := [f0 % LIMB, Low51(t1) + c5, Low51(t2), Low51(t3), Low51(t4)];
    CongruentBy(Val(f), WideVal(t), -(c4 as int), P);
    f
  }

  function Limb(f: Fe, i: nat): u128
    requires i < 5
  {
    f[i] as u128
  }

  function FeAdd(a: Fe, b: Fe): (f: Fe)
    requires Reduced(a) && Reduced(b)
    ensures Reduced(f) && Congruent(Val(f), Val(a) + Val(b), P)
  {
    CarryReduce([Limb(a, 0) + Limb(b, 0), Limb(a, 1) + Limb(b, 1), Limb(a, 2) + Limb(b, 2), Limb(a, 3) + Limb(b, 3),
      Limb(a, 4) + Limb(b, 4)])
  }

  const P_LIMBS: Fe := [0x7_FFFF_FFFF_FFED, 0x7_FFFF_FFFF_FFFF, 0x7_FFFF_FFFF_FFFF, 0x7_FFFF_FFFF_FFFF,
    0x7_FFFF_FFFF_FFFF]

  /** Twice the modulus is added first, so that no limb goes below zero. */
  function FeSub(a: Fe, b: Fe): (f: Fe)
    requires Reduced(a) && Reduced(b)
    ensures Reduced(f) && Congruent(Val(f), Val(a) - Val(b), P)
  {
    var t: Wide := [
      Limb(a, 0) + 2 * Limb(P_LIMBS, 0) - Limb(b, 0),
      Limb(a, 1) + 2 * Limb(P_LIMBS, 1) - Limb(b, 1),
      Limb(a, 2) + 2 * Limb(P_LIMBS, 2) - Limb(b, 2),
      Limb(a, 3) + 2 * Limb(P_LIMBS, 3) - Limb(b, 3),
      Limb(a, 4) + 2 * Limb(P_LIMBS, 4) - Limb(b, 4)];
    assert WideVal(t) == Val(a) - Val(b) + 2 * P;
    CongruentBy(WideVal(t), Val(a) - Val(b), 2, P);
    CarryReduce(t)
  }

  // ---- multiplication ----

  /** Positions above 4 may be folded back in nineteen times, because 2^255 is 19 more than the modulus. */
  lemma Fold(d0: int, d1: int, d2: int, d3: int, d4: int, d5: int, d6: int, d7: int, d8: int)
    ensures Congruent(d0 + W1 * d1 + W2 * d2 + W3 * d3 + W4 * d4 + W5 * d5 + W6 * d6 + W7 * d7 + W8 * d8,
                      (d0 + 19 * d5) + W1 * (d1 + 19 * d6) + W2 * (d2 + 19 * d7) + W3 * (d3 + 19 * d8) + W4 * d4, P)
  {
    CongruentBy(d0 + W1 * d1 + W2 * d2 + W3 * d3 + W4 * d4 + W5 * d5 + W6 * d6 + W7 * d7 + W8 * d8,
                (d0 + 19 * d5) + W1 * (d1 + 19 * d6) + W2 * (d2 + 19 * d7) + W3 * (d3 + 19 * d8) + W4 * d4,
                d5 + W1 * d6 + W2 * d7 + W3 * d8, P);
  }

  function Row(a: Fe, x0: u128, x1: u128, x2: u128, x3: u128, x4: u128, bound: u128): (t: u128)
    requires Reduced(a) && bound <= 0x98_0000_0002_6000   // 19 * (2^51 + 2^13)
    requires x0 <= bound && x1 <= bound && x2 <= bound && x3 <= bound && x4 <= bound
    ensures t as int == a[0] as int * x0 as int + a[1] as int * x1 as int + a[2] as int * x2 as int
            + a[3] as int * x3 as int + a[4] as int * x4 as int
    ensures t as int <= 5 * (LIMB_1 as int * bound as int)
  {
    MulLe(a[0] as int, x0 as int, LIMB_1 as int, bound as int);
    MulLe(a[1] as int, x1 as int, LIMB_1 as int, bound as int);
    MulLe(a[2] as int, x2 as int, LIMB_1 as int, bound as int);
    MulLe(a[3] as int, x3 as int, LIMB_1 as int, bound as int);
    MulLe(a[4] as int, x4 as int, LIMB_1 as int, bound as int);
    Limb(a, 0) * x0 + Limb(a, 1) * x1 + Limb(a, 2) * x2 + Limb(a, 3) * x3 + Limb(a, 4) * x4
  }

  const ONE_ROW: u128 := 0x8_0000_0000_2000
  const MIXED_ROW: u128 := 0x98_0000_0002_6000

  /** The rows of `fe_mul`: products landing past position 4 are added nineteen times, five positions lower. */
  function Products(a: Fe, b: Fe): (t: Wide)
    requires Reduced(a) && Reduced(b)
    ensures WideBounded(t, WIDE_MAX) && t[4] <= 0x1000_0000_0000_0000_0000_0000_0000
    ensures Congruent(Val(a) * Val(b), WideVal(t), P)
  {
    var b0, b1, b2, b3, b4 := Limb(b, 0), Limb(b, 1), Limb(b, 2), Limb(b, 3), Limb(b, 4);
    var b1_19, b2_19, b3_19, b4_19 := b1 * 19, b2 * 19, b3 * 19, b4 * 19;
    var t: Wide := [
      Row(a, b0, b4_19, b3_19, b2_19, b1_19, MIXED_ROW),
      Row(a, b1, b0, b4_19, b3_19, b2_19, MIXED_ROW),
      Row(a, b2, b1, b0, b4_19, b3_19, MIXED_ROW),
      Row(a, b3, b2, b1, b0, b4_19, MIXED_ROW),
      Row(a, b4, b3, b2, b1, b0, ONE_ROW)];
    ProductsExact(a, b, t);
    t
  }

  lemma ProductsExact(a: Fe, b: Fe, t: Wide)
    requires Reduced(a) && Reduced(b)
    requires t[0] == Row(a, Limb(b, 0), Limb(b, 4) * 19, Limb(b, 3) * 19, Limb(b, 2) * 19, Limb(b, 1) * 19, MIXED_ROW)
    requires t[1] == Row(a, Limb(b, 1), Limb(b, 0), Limb(b, 4) * 19, Limb(b, 3) * 19, Limb(b, 2) * 19, MIXED_ROW)
    requires t[2] == Row(a, Limb(b, 2), Limb(b, 1), Limb(b, 0), Limb(b, 4) * 19, Limb(b, 3) * 19, MIXED_ROW)
    requires t[3] == Row(a, Limb(b, 3), Limb(b, 2), Limb(b, 1), Limb(b, 0), Limb(b, 4) * 19, MIXED_ROW)
    requires t[4] == Row(a, Limb(b, 4), Limb(b, 3), Limb(b, 2), Limb(b, 1), Limb(b, 0), ONE_ROW)
    ensures Congruent(Val(a) * Val(b), WideVal(t), P)
  {
    hide Row, Congruent;
    var h0, h1, h2, h3, h4 := a[0] as int, a[1] as int, a[2] as int, a[3] as int, a[4] as int;
    var r0, r1, r2, r3, r4 := b[0] as int, b[1] as int, b[2] as int, b[3] as int, b[4] as int;
    FullProduct(h0, h1, h2, h3, h4, r0, r1, r2, r3, r4, W1, W2, W3, W4, W5, W6, W7, W8);
    Fold(h0 * r0, h0 * r1 + h1 * r0, h0 * r2 + h1 * r1 + h2 * r0, h0 * r3 + h1 * r2 + h2 * r1 + h3 * r0,
         h0 * r4 + h1 * r3 + h2 * r2 + h3 * r1 + h4 * r0,
         h1 * r4 + h2 * r3 + h3 * r2 + h4 * r1, h2 * r4 + h3 * r3 + h4 * r2, h3 * r4 + h4 * r3, h4 * r4);
    RowTerms(h0, h1, h2, h3, h4, r0, r1, r2, r3, r4, 19);
  }

  function FeMul(a: Fe, b: Fe): (f: Fe)
    requires Reduced(a) && Reduced(b)
    ensures Reduced(f) && Congruent(Val(f), Val(a) * Val(b), P)
  {
    CarryReduce(Products(a, b))
  }

  function FeSquare(a: Fe): (f: Fe)
    requires Reduced(a)
    ensures Reduced(f) && Congruent(Val(f), Val(a) * Val(a), P)
  {
    FeMul(a, a)
  }

  function FeMulSmall(a: Fe, k: u64): (f: Fe)
    requires Reduced(a) && k <= 0x100_0000_0000_0000
    ensures Reduced(f) && Congruent(Val(f), Val(a) * k as int, P)
  {
    CarryReduce(Scaled(a, k))
  }

  function Scaled(a: Fe, k: u64): (t: Wide)
    requires Reduced(a) && k <= 0x100_0000_0000_0000
    ensures WideBounded(t, 0x1000_0000_0000_0000_0000_0000_0000) && WideVal(t) == Val(a) * k as int
  {
    Distribute5(a[0] as int, a[1] as int, a[2] as int, a[3] as int, a[4] as int, W1, W2, W3, W4, k as int);
    [ScaledLimb(a[0], k), ScaledLimb(a[1], k), ScaledLimb(a[2], k), ScaledLimb(a[3], k), ScaledLimb(a[4], k)]
  }

  function ScaledLimb(x: u64, k: u64): (t: u128)
    requires x <= LIMB_1 && k <= 0x100_0000_0000_0000
    ensures t as int == x as int * k as int && t <= 0x1000_0000_0000_0000_0000_0000_0000
  {
    MulLe(x as int, k as int, LIMB_1 as int, 0x100_0000_0000_0000);
    x as u128 * k as u128
  }
}
