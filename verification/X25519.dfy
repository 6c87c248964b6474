/** Scalar multiplication of kernel/src/crypto/x25519.rs against section 5 of RFC 7748. */
module X25519 {
  import opened Common
  import opened LittleEndian
  import opened Modular
  import opened Field25519
  import opened FieldBytes

  // ---- bits of a little-endian number ----

  /** `(k[t / 8] >> (t % 8)) & 1` */
  function BitAt(k: Bytes, t: nat): nat
    requires t < 8 * |k|
  {
    k[t / 8] / Pow2(t % 8) % 2
  }

  lemma {:induction false} BitOfNumber(k: Bytes, t: nat)
    requires t < 8 * |k|
    ensures BitAt(k, t) == High(Le(k), t) % 2
    decreases |k|
  {
    LeHead(k);
    if t < 8 {
      ByteBit(k[0], Le(k[1..]), t);
    } else {
      BitOfNumber(k[1..], t - 8);
      SkipLowByte(k[0], Le(k[1..]), t);
      assert k[1..][(t - 8) / 8] == k[t / 8];
    }
  }

  lemma ByteBit(b: byte, rest: nat, t: nat)
    requires t < 8
    ensures b / Pow2(t) % 2 == High(b + 256 * rest, t) % 2
  {
    Pow2Add(t, 8 - t);
    Pow2Of8();
    HighDef(b + 256 * rest, t);
    hide Pow2, High;
    Pow2Step(8 - t);
    ByteQuotient(b, rest, Pow2(t), Pow2(7 - t));
  }

  lemma ByteQuotient(b: nat, rest: nat, p: nat, m: nat)
    requires p > 0 && p * (2 * m) == 256
    ensures b / p % 2 == (b + 256 * rest) / p % 2
  {
    var q, r := b / p, b % p;
    assert b == q * p + r;
    MulAssoc(rest, 2 * m, p);
    MulDistrib(rest * (2 * m), q, p);
    DivUnique(b + 256 * rest, p, rest * (2 * m) + q, r);
    assert rest * (2 * m) == 2 * (rest * m);
    EvenPlus(rest * m, q);
  }

  lemma EvenPlus(x: nat, q: nat)
    ensures (2 * x + q) % 2 == q % 2
  {
  }

  lemma HighDef(v: nat, n: nat)
    ensures High(v, n) == v / Pow2(n)
  {
  }

  lemma SkipLowByte(b: byte, rest: nat, t: nat)
    requires t >= 8
    ensures High(b + 256 * rest, t) == High(rest, t - 8)
  {
    Pow2Add(8, t - 8);
    Pow2Of8();
    HighDef(b + 256 * rest, t);
    HighDef(rest, t - 8);
    hide Pow2, High;
    DivUnique(b + 256 * rest, 256, rest, b);
    TwoStepDivision(b + 256 * rest, 256, Pow2(t - 8));
  }

  /** Reading one more bit, from the top down. */
  lemma HighStep(v: nat, t: nat)
    ensures High(v, t) == 2 * High(v, t + 1) + High(v, t) % 2
  {
    Pow2Add(t, 1);
    assert Pow2(1) == 2;
    HighDef(v, t);
    HighDef(v, t + 1);
    hide Pow2, High;
    TwoStepDivision(v, Pow2(t), 2);
  }

  // ---- powers ----

  lemma {:induction false} PowerAdd(a: int, m: nat, n: nat)
    ensures Power(a, m + n) == Power(a, m) * Power(a, n)
  {
    if m > 0 {
      PowerAdd(a, m - 1, n);
      MulAssoc(a, Power(a, m - 1), Power(a, n));
    }
  }

  /** P - 2, the exponent `fe_invert` spells out in bytes. */
  function Exponent(): Bytes32 { [0xeb] + seq(30, _ => 0xff) + [0x7f] }

  lemma {:induction false} LeOnes(n: nat)
    ensures Le(seq(n, _ => 0xff)) == Pow2(8 * n) - 1
  {
    if n > 0 {
      var ones: Bytes := seq(n, _ => 0xff);
      LeOnes(n - 1);
      assert ones[1..] == seq(n - 1, _ => 0xff);
      LeHead(ones);
      Pow2Add(8, 8 * (n - 1));
      Pow2Of8();
    }
  }

  lemma ExponentValue()
    ensures Le(Exponent()) == P - 2
  {
    var ones: Bytes := seq(30, _ => 0xff);
    LeOnes(30);
    assert Exponent() == [0xeb] + (ones + [0x7f]);
    LeConcat([0xeb], ones + [0x7f]);
    LeConcat(ones, [0x7f]);
    LeOne(0xeb);
    LeOne(0x7f);
    Pow2Of8();
    Pow2At240();
  }

  lemma Pow2At15()
    ensures Pow2(15) == 0x8000
  {
    assert Pow2(7) == 0x80;
    Pow2Of8();
    hide Pow2;
    Pow2Add(8, 7);
  }

  lemma Pow2At240()
    ensures Pow2(240) == 0x1_0000_0000_0000_0000_0000_0000_0000_0000_0000_0000_0000_0000_0000_0000_0000
    ensures Pow2(255) == P + 19
  {
    Pow2At15();
    Pow2Of64();
    hide Pow2;
    Pow2Add(64, 56);
    Pow2Add(120, 120);
    Pow2Add(240, 15);
  }

  /** The field element of `fe_invert` after the `n` highest of the 255 bits of the exponent. */
  function LimbPower(a: Fe, n: nat): (r: Fe)
    requires Reduced(a) && n <= 255
    ensures Reduced(r)
  {
    if n == 0 then [1, 0, 0, 0, 0]
    else
      var squared := FeSquare(LimbPower(a, n - 1));
      if BitAt(Exponent(), 255 - n) == 1 then FeMul(squared, a) else squared
  }

  /** `a^(p-2)` by square and multiply over the 255 bits of the exponent. */
  method FeInvert(a: Fe) returns (result: Fe)
    requires Reduced(a)
    ensures Reduced(result) && Congruent(Val(result), Power(Val(a), P - 2), P)
    ensures result == LimbPower(a, 255)
  {
    hide Congruent, FeMul, FeSquare, Le, Power, BitAt, Exponent;
    var exponent := Exponent();
    ghost var e := Le(exponent);
    result := [1, 0, 0, 0, 0];
    StartOfExponent();
    var bitIndex := 255;
    while bitIndex > 0
      invariant 0 <= bitIndex <= 255 && Reduced(result)
      invariant Congruent(Val(result), Power(Val(a), High(e, bitIndex)), P)
      invariant result == LimbPower(a, 255 - bitIndex)
    {
      bitIndex := bitIndex - 1;
      ghost var before := result;
      result := FeSquare(result);
      BitOfNumber(exponent, bitIndex);
      HighStep(e, bitIndex);
      SquareStep(Val(result), Val(before), Val(a), High(e, bitIndex + 1));
      if BitAt(exponent, bitIndex) == 1 {
        ghost var squared := result;
        result := FeMul(result, a);
        MultiplyStep(Val(result), Val(squared), Val(a), 2 * High(e, bitIndex + 1));
      }
    }
    ExponentValue();
    HighZero(e);
  }

  lemma StartOfExponent()
    ensures Val([1, 0, 0, 0, 0]) == 1 && High(Le(Exponent()), 255) == 0 && forall a :: Congruent(1, Power(a, 0), P)
  {
    ExponentValue();
    Pow2At240();
    HighDef(Le(Exponent()), 255);
    DivUnique(P - 2, Pow2(255), 0, P - 2);
  }

  lemma SquareStep(after: int, before: int, a: int, n: nat)
    requires Congruent(before, Power(a, n), P) && Congruent(after, before * before, P)
    ensures Congruent(after, Power(a, 2 * n), P)
  {
    PowerAdd(a, n, n);
    CongruentMul(before, Power(a, n), before, Power(a, n), P);
  }

  lemma MultiplyStep(after: int, before: int, a: int, n: nat)
    requires Congruent(before, Power(a, n), P) && Congruent(after, before * a, P)
    ensures Congruent(after, Power(a, n + 1), P)
  {
    CongruentMul(before, Power(a, n), a, a, P);
  }

  // ---- field elements stand for residues ----

  function Plus(x: int, y: int): int { (x + y) % P }

  function Minus(x: int, y: int): int { (x - y) % P }

  function Times(x: int, y: int): int { x * y % P }

  predicate Stands(f: Fe, x: int) { Reduced(f) && 0 <= x < P && Congruent(Val(f), x, P) }

  lemma ToResidue(f: Fe, x: int)
    requires Reduced(f) && Congruent(Val(f), x, P)
    ensures Stands(f, x % P)
  {
    Residue(x, P);
  }

  lemma Adds(a: Fe, x: int, b: Fe, y: int)
    requires Stands(a, x) && Stands(b, y)
    ensures Stands(FeAdd(a, b), Plus(x, y))
  {
    CongruentAdd(Val(a), x, Val(b), y, P);
    ToResidue(FeAdd(a, b), x + y);
  }

  lemma Subtracts(a: Fe, x: int, b: Fe, y: int)
    requires Stands(a, x) && Stands(b, y)
    ensures Stands(FeSub(a, b), Minus(x, y))
  {
    CongruentAdd(Val(a), x, Val(b), y, P);
    ToResidue(FeSub(a, b), x - y);
  }

  lemma Multiplies(a: Fe, x: int, b: Fe, y: int)
    requires Stands(a, x) && Stands(b, y)
    ensures Stands(FeMul(a, b), Times(x, y))
  {
    CongruentMul(Val(a), x, Val(b), y, P);
    ToResidue(FeMul(a, b), x * y);
  }

  lemma Squares(a: Fe, x: int)
    requires Stands(a, x)
    ensures Stands(FeSquare(a), Times(x, x))
  {
    Multiplies(a, x, a, x);
  }

  lemma Scales(a: Fe, x: int, k: u64)
    requires Stands(a, x) && k <= 0x2_0000_0000
    ensures Stands(FeMulSmall(a, k), Times(k as int, x))
  {
    CongruentMul(Val(a), x, k as int, k as int, P);
    ToResidue(FeMulSmall(a, k), x * k as int);
  }

  // ---- section 5 of RFC 7748 ----

  /** The constant of the code. */
  const A24: u64 := 121665

  /** The curve is v^2 == u^3 + A * u^2 + u, with this A. */
  const CURVE_A: int := 486662

  /** The constant is the one the RFC defines, (A - 2) / 4. */
  lemma CurveConstant()
    ensures 4 * A24 as int + 2 == CURVE_A
  {
  }

  datatype Ladder = Ladder(x2: int, z2: int, x3: int, z3: int, swap: bool)

  function Cswap(swap: bool, s: Ladder): Ladder
  {
    if swap then s.(x2 := s.x3, z2 := s.z3, x3 := s.x2, z3 := s.z2) else s
  }

  /** One round of the ladder over the integers modulo 2^255 - 19. */
  function Round(x1: int, bit: bool, s: Ladder): Ladder
  {
    var t := Cswap(s.swap != bit, s);
    var a, b := Plus(t.x2, t.z2), Minus(t.x2, t.z2);
    var aa, bb := Times(a, a), Times(b, b);
    var e := Minus(aa, bb);
    var c, d := Plus(t.x3, t.z3), Minus(t.x3, t.z3);
    var da, cb := Times(d, a), Times(c, b);
    var sum, diff := Plus(da, cb), Minus(da, cb);
    Ladder(Times(aa, bb), Times(e, Plus(aa, Times((CURVE_A - 2) / 4, e))), Times(sum, sum),
           Times(x1, Times(diff, diff)), bit)
  }

  /**
   What a round does, on the curve: it doubles one point and adds the two, given their difference, in projective
   coordinates. These are the formulas of the curve itself, without the shared subexpressions.
   */
  ghost method RoundIsMontgomery(x1: int, bit: bool, s: Ladder)
    ensures var t, r := Cswap(s.swap != bit, s), Round(x1, bit, s);
            var (x, z, u, w) := (t.x2, t.z2, t.x3, t.z3);
            && Congruent(r.x2, Square(x * x - z * z), P)
            && Congruent(r.z2, 4 * (x * z) * (x * x + CURVE_A * (x * z) + z * z), P)
            && Congruent(r.x3, 4 * Square(x * u - z * w), P)
            && Congruent(r.z3, x1 * (4 * Square(x * w - z * u)), P)
  {
    hide Plus, Minus, Times, Congruent, Round, Cswap, Square;
    Doubles(x1, bit, s);
    Differential(x1, bit, s);
  }

  function Square(x: int): int { x * x }

  ghost method Doubles(x1: int, bit: bool, s: Ladder)
    ensures var t, r := Cswap(s.swap != bit, s), Round(x1, bit, s);
            var (x, z) := (t.x2, t.z2);
            && Congruent(r.x2, Square(x * x - z * z), P)
            && Congruent(r.z2, 4 * (x * z) * (x * x + CURVE_A * (x * z) + z * z), P)
  {
    hide Plus, Minus, Times, Congruent, Square, Cswap;
    var t := Cswap(s.swap != bit, s);
    var (x, z) := (t.x2, t.z2);
    var a, b := Plus(x, z), Minus(x, z);
    Selves(x, z);
    CongruentReflexive((CURVE_A - 2) / 4, P);
    PlusStands(x, x, z, z);
    TimesStands(a, x + z, a, x + z);
    TimesStands(b, x - z, b, x - z);
    var aa, bb := Times(a, a), Times(b, b);
    var aai, bbi := (x + z) * (x + z), (x - z) * (x - z);
    PlusStands(aa, aai, bb, bbi);
    TimesStands(aa, aai, bb, bbi);
    var e := Minus(aa, bb);
    TimesStands((CURVE_A - 2) / 4, 121665, e, aai - bbi);
    PlusStands(aa, aai, Times((CURVE_A - 2) / 4, e), 121665 * (aai - bbi));
    TimesStands(e, aai - bbi, Plus(aa, Times((CURVE_A - 2) / 4, e)), aai + 121665 * (aai - bbi));
    DoublingFormulas(x, z);
  }

  lemma Selves(x: int, y: int)
    ensures Congruent(x, x, P) && Congruent(y, y, P)
  {
  }

  lemma DoublingFormulas(x: int, z: int)
    ensures var aa, bb := (x + z) * (x + z), (x - z) * (x - z);
            && aa * bb == Square(x * x - z * z)
            && (aa - bb) * (aa + 121665 * (aa - bb)) == 4 * (x * z) * (x * x + CURVE_A * (x * z) + z * z)
  {
  }

  ghost method Differential(x1: int, bit: bool, s: Ladder)
    ensures var t, r := Cswap(s.swap != bit, s), Round(x1, bit, s);
            var (x, z, u, w) := (t.x2, t.z2, t.x3, t.z3);
            && Congruent(r.x3, 4 * Square(x * u - z * w), P)
            && Congruent(r.z3, x1 * (4 * Square(x * w - z * u)), P)
  {
    hide Plus, Minus, Times, Congruent, Square, Cswap;
    var t := Cswap(s.swap != bit, s);
    var (x, z, u, w) := (t.x2, t.z2, t.x3, t.z3);
    Selves(x, z);
    Selves(u, w);
    CongruentReflexive(x1, P);
    PlusStands(x, x, z, z);
    PlusStands(u, u, w, w);
    TimesStands(Minus(u, w), u - w, Plus(x, z), x + z);
    TimesStands(Plus(u, w), u + w, Minus(x, z), x - z);
    var da, cb := Times(Minus(u, w), Plus(x, z)), Times(Plus(u, w), Minus(x, z));
    var dai, cbi := (u - w) * (x + z), (u + w) * (x - z);
    PlusStands(da, dai, cb, cbi);
    TimesStands(Plus(da, cb), dai + cbi, Plus(da, cb), dai + cbi);
    TimesStands(Minus(da, cb), dai - cbi, Minus(da, cb), dai - cbi);
    TimesStands(x1, x1, Times(Minus(da, cb), Minus(da, cb)), (dai - cbi) * (dai - cbi));
    AdditionFormulas(x, z, u, w);
  }

  lemma AdditionFormulas(x: int, z: int, u: int, w: int)
    ensures var da, cb := (u - w) * (x + z), (u + w) * (x - z);
            && (da + cb) * (da + cb) == 4 * Square(x * u - z * w)
            && (da - cb) * (da - cb) == 4 * Square(x * w - z * u)
  {
    assert (u - w) * (x + z) + (u + w) * (x - z) == 2 * (x * u - z * w);
    assert (u - w) * (x + z) - (u + w) * (x - z) == 2 * (z * u - x * w);
  }

  /** Sums, differences and products of residues are those of the numbers they stand for. */
  lemma PlusStands(x: int, xi: int, y: int, yi: int)
    requires Congruent(x, xi, P) && Congruent(y, yi, P)
    ensures Congruent(Plus(x, y), xi + yi, P) && Congruent(Minus(x, y), xi - yi, P)
  {
    CongruentAdd(x, xi, y, yi, P);
    Residue(x + y, P);
    Residue(x - y, P);
  }

  lemma TimesStands(x: int, xi: int, y: int, yi: int)
    requires Congruent(x, xi, P) && Congruent(y, yi, P)
    ensures Congruent(Times(x, y), xi * yi, P)
  {
    CongruentMul(x, xi, y, yi, P);
    Residue(x * y, P);
  }

  /** The state after the `n` highest of the 255 scalar bits. */
  function Rounds(k: Bytes32, x1: int, n: nat): Ladder
    requires n <= 255
  {
    if n == 0 then Ladder(1, 0, x1, 1, false)
    else Round(x1, BitAt(k, 255 - n) == 1, Rounds(k, x1, n - 1))
  }

  /** decodeScalar25519 */
  function DecodeScalar(k: Bytes32): Bytes32
  {
    k[0 := k[0] - k[0] % 8][31 := k[31] % 64 + 64]
  }

  /** The scalar used is a multiple of the cofactor 8 with bit 254 as its highest; its other bits are those given. */
  lemma ScalarIsClamped(k: Bytes32)
    ensures Le(DecodeScalar(k)) == Le(k) / 8 * 8 % Pow2(254) + Pow2(254)
  {
    hide Le, Pow2;
    var mid := k[1..31];
    Ends(k[0], mid, k[31]);
    Ends(k[0] - k[0] % 8, mid, k[31] % 64 + 64);
    assert k == [k[0]] + mid + [k[31]];
    assert DecodeScalar(k) == [k[0] - k[0] % 8] + mid + [k[31] % 64 + 64];
    ClampedParts(k[0], Le(mid), k[31], Pow2(240));
  }

  lemma ClampedParts(low: byte, mid: nat, high: byte, w: nat)
    requires mid < w
    ensures var h := 256 * w; var whole := low + 256 * mid + h * high;
            low - low % 8 + 256 * mid + h * (high % 64 + 64) == whole / 8 * 8 % (64 * h) + 64 * h
  {
    TopByte(high, w);
    var e := w * (high % 64);
    ClampedSum(low, 32 * mid + 32 * e, high / 64 * (2048 * w), high / 64, 2048 * w);
  }

  lemma TopByte(high: byte, w: nat)
    ensures var e := w * (high % 64);
            0 <= e <= 63 * w && 256 * w * high == 8 * (high / 64 * (2048 * w)) + 256 * e
            && 256 * w * (high % 64 + 64) == 256 * e + 16384 * w
  {
    var q, r := high / 64, high % 64;
    MulAssoc(256, w, high);
    MulAssoc(256, w, r + 64);
    MulDistrib(64 * q, r, w);
    MulAssoc(q, 64, w);
    MulAssoc(q, 2048, w);
    MulLe(0, 0, r, w);
    MulMono(r, 63, w);
  }

  lemma ClampedSum(low: byte, eighths: nat, more: int, q: nat, n: nat)
    requires more == q * n && low / 8 + eighths < n
    ensures var v := 8 * (low / 8 + eighths); (v + low % 8 + 8 * more) / 8 * 8 % (8 * n) == v
  {
    var v := 8 * (low / 8 + eighths);
    MulLe(0, 0, q, n);
    EighthsKept(v, low % 8, more, low / 8 + eighths);
    MulAssoc(8, q, n);
    MulAssoc(q, 8, n);
    DivUnique(v + 8 * more, 8 * n, q, v);
  }

  lemma EighthsKept(v: nat, r: nat, more: nat, eighth: nat)
    requires r < 8 && v == 8 * eighth
    ensures (v + r + 8 * more) / 8 * 8 == v + 8 * more
  {
  }

  lemma Ends(low: byte, mid: Bytes, high: byte)
    requires |mid| == 30
    ensures Le([low] + mid + [high]) == low + 256 * Le(mid) + 256 * Pow2(240) * high && Le(mid) < Pow2(240)
    ensures Pow2(254) == 64 * (256 * Pow2(240))
  {
    hide Le, Pow2;
    LeConcat([low] + mid, [high]);
    LeConcat([low], mid);
    LeOne(low);
    LeOne(high);
    SmallPowers();
    Pow2Add(8, 240);
    Pow2Add(6, 248);
  }

  lemma SmallPowers()
    ensures Pow2(6) == 64 && Pow2(8) == 256
  {
  }

  /** decodeUCoordinate: the top bit is masked, and the number is taken modulo p. */
  function DecodeU(u: Bytes32): int { Le(u[31 := u[31] % 128]) % P }

  /** X25519(k, u) as a number. */
  function Spec(k: Bytes32, u: Bytes32): int
  {
    var s := Rounds(DecodeScalar(k), DecodeU(u), 255);
    var t := Cswap(s.swap, s);
    Times(t.x2, Power(t.z2, P - 2) % P)
  }

  // ---- the ladder on limbs ----

  datatype Quad = Quad(x2: Fe, z2: Fe, x3: Fe, z3: Fe)

  predicate QuadStands(q: Quad, s: Ladder)
  {
    Stands(q.x2, s.x2) && Stands(q.z2, s.z2) && Stands(q.x3, s.x3) && Stands(q.z3, s.z3)
  }

  function FeCswap(swap: bool, q: Quad): Quad { if swap then Quad(q.x3, q.z3, q.x2, q.z2) else q }

  predicate QuadReduced(q: Quad) { Reduced(q.x2) && Reduced(q.z2) && Reduced(q.x3) && Reduced(q.z3) }

  function LimbThird(x1: Fe, da: Fe, cb: Fe): (r: (Fe, Fe))
    requires Reduced(x1) && Reduced(da) && Reduced(cb)
    ensures Reduced(r.0) && Reduced(r.1)
  {
    (FeSquare(FeAdd(da, cb)), FeMul(x1, FeSquare(FeSub(da, cb))))
  }

  function LimbSecond(aa: Fe, bb: Fe, e: Fe): (r: (Fe, Fe))
    requires Reduced(aa) && Reduced(bb) && Reduced(e)
    ensures Reduced(r.0) && Reduced(r.1)
  {
    (FeMul(aa, bb), FeMul(e, FeAdd(aa, FeMulSmall(e, A24))))
  }

  /** What one round computes on field elements. */
  function LimbStep(x1: Fe, q: Quad): (r: Quad)
    requires Reduced(x1) && QuadReduced(q)
    ensures QuadReduced(r)
  {
    var a, b := FeAdd(q.x2, q.z2), FeSub(q.x2, q.z2);
    var aa, bb := FeSquare(a), FeSquare(b);
    var (x3, z3) := LimbThird(x1, FeMul(FeSub(q.x3, q.z3), a), FeMul(FeAdd(q.x3, q.z3), b));
    var (x2, z2) := LimbSecond(aa, bb, FeSub(aa, bb));
    Quad(x2, z2, x3, z3)
  }

  /** The field elements, and the pending swap, after the `n` highest of the 255 scalar bits. */
  function LimbRounds(k: Bytes32, x1: Fe, n: nat): (r: (Quad, bool))
    requires Reduced(x1) && n <= 255
    ensures QuadReduced(r.0)
  {
    if n == 0 then (Quad([1, 0, 0, 0, 0], [0, 0, 0, 0, 0], x1, [1, 0, 0, 0, 0]), false)
    else
      var (q, swap) := LimbRounds(k, x1, n - 1);
      var bit := BitAt(k, 255 - n) == 1;
      (LimbStep(x1, FeCswap(swap != bit, q)), bit)
  }

  /** The field element the u-coordinate is read as. */
  function StartElement(u: Bytes32): (x1: Fe)
    ensures Reduced(x1)
  {
    Limbs(Le(u[31 := u[31] % 128]))
  }

  /** The last swap and the division. */
  function LadderResult(r: (Quad, bool)): (f: Fe)
    requires QuadReduced(r.0)
    ensures Reduced(f)
  {
    var t := FeCswap(r.1, r.0);
    FeMul(t.x2, LimbPower(t.z2, 255))
  }

  /** The field element `scalarmult` encodes in the end. */
  function LastElement(scalar: Bytes32, u: Bytes32): (f: Fe)
    ensures Reduced(f)
  {
    LadderResult(LimbRounds(DecodeScalar(scalar), StartElement(u), 255))
  }

  /** The body of the ladder loop after the swaps. */
  method LadderStep(x1: Fe, q: Quad, ghost x1v: int, ghost s: Ladder, ghost bit: bool) returns (r: Quad)
    requires Stands(x1, x1v) && QuadStands(q, Cswap(s.swap != bit, s))
    ensures QuadStands(r, Round(x1v, bit, s)) && r == LimbStep(x1, q)
  {
    hide Congruent, FeAdd, FeSub, FeMul, FeSquare, Plus, Minus, Times, LimbThird, LimbSecond;
    ghost var t := Cswap(s.swap != bit, s);
    Adds(q.x2, t.x2, q.z2, t.z2);
    var a := FeAdd(q.x2, q.z2);
    ghost var av := Plus(t.x2, t.z2);
    Squares(a, av);
    var aa := FeSquare(a);
    Subtracts(q.x2, t.x2, q.z2, t.z2);
    var b := FeSub(q.x2, q.z2);
    ghost var bv := Minus(t.x2, t.z2);
    Squares(b, bv);
    var bb := FeSquare(b);
    Subtracts(aa, Times(av, av), bb, Times(bv, bv));
    var e := FeSub(aa, bb);
    Adds(q.x3, t.x3, q.z3, t.z3);
    var c := FeAdd(q.x3, q.z3);
    Subtracts(q.x3, t.x3, q.z3, t.z3);
    var d := FeSub(q.x3, q.z3);
    Multiplies(d, Minus(t.x3, t.z3), a, av);
    var da := FeMul(d, a);
    Multiplies(c, Plus(t.x3, t.z3), b, bv);
    var cb := FeMul(c, b);
    var x3, z3 := LadderThird(x1, da, cb, x1v, Times(Minus(t.x3, t.z3), av), Times(Plus(t.x3, t.z3), bv));
    var x2, z2 := LadderSecond(aa, bb, e, Times(av, av), Times(bv, bv), Minus(Times(av, av), Times(bv, bv)));
    r := Quad(x2, z2, x3, z3);
  }

  method LadderThird(x1: Fe, da: Fe, cb: Fe, ghost x1v: int, ghost dav: int, ghost cbv: int) returns (x3: Fe, z3: Fe)
    requires Stands(x1, x1v) && Stands(da, dav) && Stands(cb, cbv)
    ensures var sum, diff := Plus(dav, cbv), Minus(dav, cbv);
            Stands(x3, Times(sum, sum)) && Stands(z3, Times(x1v, Times(diff, diff)))
              && (x3, z3) == LimbThird(x1, da, cb)
  {
    hide Congruent, FeAdd, FeSub, FeMul, FeSquare, Plus, Minus, Times;
    Adds(da, dav, cb, cbv);
    Subtracts(da, dav, cb, cbv);
    var sum, diff := FeAdd(da, cb), FeSub(da, cb);
    ghost var diffv := Minus(dav, cbv);
    Squares(sum, Plus(dav, cbv));
    Squares(diff, diffv);
    Multiplies(x1, x1v, FeSquare(diff), Times(diffv, diffv));
    x3 := FeSquare(sum);
    z3 := FeMul(x1, FeSquare(diff));
  }

  method LadderSecond(aa: Fe, bb: Fe, e: Fe, ghost aav: int, ghost bbv: int, ghost ev: int) returns (x2: Fe, z2: Fe)
    requires Stands(aa, aav) && Stands(bb, bbv) && Stands(e, ev)
    ensures Stands(x2, Times(aav, bbv)) && Stands(z2, Times(ev, Plus(aav, Times(A24 as int, ev))))
    ensures (x2, z2) == LimbSecond(aa, bb, e)
  {
    hide Congruent, FeAdd, FeMul, FeMulSmall, Plus, Times;
    Multiplies(aa, aav, bb, bbv);
    Scales(e, ev, A24);
    var scaled := FeMulSmall(e, A24);
    Adds(aa, aav, scaled, Times(A24 as int, ev));
    var sum := FeAdd(aa, scaled);
    Multiplies(e, ev, sum, Plus(aav, Times(A24 as int, ev)));
    x2 := FeMul(aa, bb);
    z2 := FeMul(e, sum);
  }

  // ---- scalar multiplication ----

  /** The 255 rounds of the ladder and the last swap. */
  method RunLadder(k: Bytes32, x1: Fe, ghost x1v: int) returns (q: Quad)
    requires Stands(x1, x1v)
    ensures var s := Rounds(k, x1v, 255); QuadStands(q, Cswap(s.swap, s))
    ensures var (r, swap) := LimbRounds(k, x1, 255); q == FeCswap(swap, r)
  {
    hide Stands, Round, BitAt, LimbStep;
    q := Quad([1, 0, 0, 0, 0], [0, 0, 0, 0, 0], x1, [1, 0, 0, 0, 0]);
    Constants();
    StandsReduced(x1, x1v);
    var swap := false;
    var t := 255;
    while t > 0
      invariant 0 <= t <= 255
      invariant QuadStands(q, Rounds(k, x1v, 255 - t)) && swap == Rounds(k, x1v, 255 - t).swap
      invariant (q, swap) == LimbRounds(k, x1, 255 - t)
    {
      t := t - 1;
      ghost var s := Rounds(k, x1v, 254 - t);
      var bit := BitAt(k, t) == 1;
      swap := swap != bit;
      q := FeCswap(swap, q);
      swap := bit;
      q := LadderStep(x1, q, x1v, s, bit);
      RoundSwap(x1v, bit, s);
    }
    q := FeCswap(swap, q);
  }

  lemma StandsReduced(f: Fe, x: int)
    requires Stands(f, x)
    ensures Reduced(f)
  {
  }

  lemma RoundSwap(x1: int, bit: bool, s: Ladder)
    ensures Round(x1, bit, s).swap == bit
  {
  }

  lemma Constants()
    ensures Stands([1, 0, 0, 0, 0], 1) && Stands([0, 0, 0, 0, 0], 0)
  {
  }

  /**
   `scalarmult`: the field element the ladder ends with stands for X25519(k, u), and its encoding is the right one
   exactly when it is not torn. A result that is not at risk is always encoded right.
   */
  method Scalarmult(scalar: Bytes32, uBytes: Bytes32) returns (out: Bytes32)
    ensures Stands(LastElement(scalar, uBytes), Spec(scalar, uBytes))
    ensures Le(out) == Spec(scalar, uBytes) <==> !Torn(LastElement(scalar, uBytes))
    ensures Torn(LastElement(scalar, uBytes)) ==> Le(out) == Spec(scalar, uBytes) - W2
    ensures Le(out) != Spec(scalar, uBytes) ==> AtRisk(Spec(scalar, uBytes))
  {
    hide Congruent, Rounds, LimbRounds, LimbPower, FeMul, Le, Power, Plus, Minus, Limbs, Reduced, AtRisk, Torn;
    var k := scalar;
    k := k[0 := k[0] - k[0] % 8];
    k := k[31 := k[31] % 128];
    k := k[31 := (if k[31] < 64 then k[31] + 64 else k[31])];
    assert k == DecodeScalar(scalar);
    var x1 := FeFromBytes(uBytes);
    NarrowIsNeverTorn(x1);
    CongruentReflexive(Val(x1), P);
    ToResidue(x1, Val(x1));
    var q := RunLadder(k, x1, DecodeU(uBytes));
    ghost var s := Rounds(k, DecodeU(uBytes), 255);
    ghost var t := Cswap(s.swap, s);
    var inverse := FeInvert(q.z2);
    InverseStands(q.z2, t.z2, inverse);
    Multiplies(q.x2, t.x2, inverse, Power(t.z2, P - 2) % P);
    var product := FeMul(q.x2, inverse);
    out := FeToBytes(product);
    StandsForResidue(product, Spec(scalar, uBytes));
  }

  lemma {:induction false} PowerCongruent(a: int, b: int, n: nat)
    requires Congruent(a, b, P)
    ensures Congruent(Power(a, n), Power(b, n), P)
  {
    if n > 0 {
      PowerCongruent(a, b, n - 1);
      CongruentMul(a, b, Power(a, n - 1), Power(b, n - 1), P);
    }
  }

  lemma InverseStands(z: Fe, zv: int, inverse: Fe)
    requires Stands(z, zv) && Reduced(inverse) && Congruent(Val(inverse), Power(Val(z), P - 2), P)
    ensures Stands(inverse, Power(zv, P - 2) % P)
  {
    hide Power;
    PowerCongruent(Val(z), zv, P - 2);
    ToResidue(inverse, Power(zv, P - 2));
  }

  lemma StandsForResidue(f: Fe, x: int)
    requires Stands(f, x)
    ensures Val(f) % P == x && (Torn(f) ==> Val(f) == x && AtRisk(x))
  {
    if Torn(f) { TornIsAtRisk(f); }
    DivUnique(x, P, 0, x);
    if Val(f) < P {
      DivUnique(Val(f), P, 0, Val(f));
    }
  }
}
