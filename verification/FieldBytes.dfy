/** Reading and writing field elements as 32 little-endian bytes: kernel/src/crypto/x25519.rs, lines 139-211. */
module FieldBytes {
  import opened BitwiseOr
  import opened Common
  import opened FiveLimbs
  import opened LittleEndian
  import opened Modular
  import opened Field25519

  type Bytes32 = b: Bytes | |b| == 32 witness seq(32, _ => 0)

  /** Two buffers or-ed byte by byte. */
  function OrBytes(a: Bytes, b: Bytes): (r: Bytes)
    requires |a| == |b|
    ensures |r| == |a|
  {
    seq(|a|, i requires 0 <= i < |a| => OrByte(a[i], b[i]))
  }

  function OrByte(a: byte, b: byte): byte
  {
    Pow2Of8();
    OrSplit(a, b, 0, 0, 8);
    Or(a, b)
  }

  lemma {:induction false} LeOr(a: Bytes, b: Bytes)
    requires |a| == |b|
    ensures Le(OrBytes(a, b)) == Or(Le(a), Le(b))
    decreases |a|
  {
    if a != [] {
      LeOr(a[1..], b[1..]);
      assert OrBytes(a, b)[1..] == OrBytes(a[1..], b[1..]);
      LeHead(a);
      LeHead(b);
      LeHead(OrBytes(a, b));
      Pow2Of8();
      hide Le, OrBytes, Or, Pow2;
      OrSplit(a[0], b[0], Le(a[1..]), Le(b[1..]), 8);
      OrByteIs(a, b);
    }
  }

  lemma OrByteIs(a: Bytes, b: Bytes)
    requires |a| == |b| > 0
    ensures OrBytes(a, b)[0] == Or(a[0], b[0])
  {
  }

  // ---- fe_from_bytes ----

  /** The five digits of a number to the base 2^51. */
  function Limbs(v: nat): (f: Fe)
    ensures forall i :: 0 <= i < 5 ==> f[i] < LIMB
  {
    var v1 := v / W1;
    var v2 := v1 / W1;
    var v3 := v2 / W1;
    var v4 := v3 / W1;
    [(v % W1) as u64, (v1 % W1) as u64, (v2 % W1) as u64, (v3 % W1) as u64, (v4 % W1) as u64]
  }

  lemma LimbsUnique(f: Fe)
    requires forall i :: 0 <= i < 5 ==> f[i] < LIMB
    ensures f == Limbs(Val(f))
  {
    var v4 := f[4] as int;
    var v3 := f[3] as int + W1 * v4;
    var v2 := f[2] as int + W1 * v3;
    var v1 := f[1] as int + W1 * v2;
    var v0 := f[0] as int + W1 * v1;
    assert v0 == Val(f);
    Digit(v0, v1, f[0] as int);
    Digit(v1, v2, f[1] as int);
    Digit(v2, v3, f[2] as int);
    Digit(v3, v4, f[3] as int);
    Digit(v4, 0, f[4] as int);
  }

  lemma Digit(v: nat, up: nat, low: nat)
    requires v == low + W1 * up && low < W1
    ensures v / W1 == up && v % W1 == low
  {
    DivUnique(v, W1, up, low);
  }

  /** The top bit is masked; the 255 bits below it are cut into five limbs of 51. */
  method FeFromBytes(bytes: Bytes32) returns (f: Fe)
    ensures f == Limbs(Le(bytes[31 := bytes[31] % 128]))
    ensures Val(f) == Le(bytes[31 := bytes[31] % 128]) && forall i :: 0 <= i < 5 ==> f[i] < LIMB
  {
    hide Limbs, WordAt, Le;
    var b: Bytes32 := bytes[31 := bytes[31] % 128];
    var w0 := ReadU64At(b, 0);
    var w1 := ReadU64At(b, 6);
    var w2 := ReadU64At(b, 12);
    var w3 := ReadU64At(b, 19);
    var w4 := ReadU64At(b, 25);
    f := [w0 % LIMB, w1 / 8 % LIMB, w2 / 64 % LIMB, w3 / 2 % LIMB, w4 / 16 % LIMB];
    Recombine(b, w0 as int, w1 as int, w2 as int, w3 as int, w4 as int);
    LimbsUnique(f);
  }

  lemma Digits(m0: nat, m1: nat, m2: nat, m3: nat, m4: nat)
    requires m0 / W1 == m1 && m1 / W1 == m2 && m2 / W1 == m3 && m3 / W1 == m4 && m4 < W1
    ensures m0 % W1 + W1 * (m1 % W1) + W2 * (m2 % W1) + W3 * (m3 % W1) + W4 * (m4 % W1) == m0
  {
    Stack(m0, m1, m2, m3, m4, W1, W2, W3, W4);
  }

  lemma Recombine(b: Bytes32, w0: nat, w1: nat, w2: nat, w3: nat, w4: nat)
    requires b[31] < 128
    requires w0 == WordAt(b, 0) && w1 == WordAt(b, 6) && w2 == WordAt(b, 12) && w3 == WordAt(b, 19)
             && w4 == WordAt(b, 25)
    ensures w0 % W1 + W1 * (w1 / 8 % W1) + W2 * (w2 / 64 % W1) + W3 * (w3 / 2 % W1) + W4 * (w4 / 16 % W1) == Le(b)
  {
    hide Le, WordAt, Min;
    var n0, n6, n12, n19, n25 := Le(b), Le(b[6..]), Le(b[12..]), Le(b[19..]), Le(b[25..]);
    assert b[0..] == b;
    WordIsLow(b, 0);
    WordIsLow(b, 6);
    WordIsLow(b, 12);
    WordIsLow(b, 19);
    WordIsLow(b, 25);
    Pow2Of64();
    DropBytes(b, 0, 6);
    DropBytes(b, 6, 6);
    DropBytes(b, 12, 7);
    DropBytes(b, 19, 6);
    Slices(n0, n6, n12, n19, n25);
    SameLimb(n6, w1, 8, W1, 0x400);
    SameLimb(n12, w2, 64, W1, 0x80);
    SameLimb(n19, w3, 2, W1, 0x1000);
    SameLimb(n25, w4, 16, W1, 0x200);
    SameLimb(n0, w0, 1, W1, 0x2000);
    TopBytes(b);
    assert w0 / 1 == w0 && n0 / 1 == n0;
    Digits(n0, n6 / 8, n12 / 64, n19 / 2, n25 / 16);
  }

  /** Each limb starts where the one before ends. */
  lemma Slices(n0: nat, n6: nat, n12: nat, n19: nat, n25: nat)
    requires n0 / 0x1_0000_0000_0000 == n6 && n6 / 0x1_0000_0000_0000 == n12
    requires n12 / 0x100_0000_0000_0000 == n19 && n19 / 0x1_0000_0000_0000 == n25
    ensures n0 / W1 == n6 / 8 && n6 / 8 / W1 == n12 / 64 && n12 / 64 / W1 == n19 / 2 && n19 / 2 / W1 == n25 / 16
  {
    TwoStepDivision(n0, 0x1_0000_0000_0000, 8);
    TwoStepDivision(n6, 8, W1);
    TwoStepDivision(n6, 0x1_0000_0000_0000, 64);
    TwoStepDivision(n12, 64, W1);
    TwoStepDivision(n12, 0x100_0000_0000_0000, 2);
    TwoStepDivision(n19, 2, W1);
    TwoStepDivision(n19, 0x1_0000_0000_0000, 16);
  }

  lemma TopBytes(b: Bytes32)
    requires b[31] < 128
    ensures Le(b[25..]) / 16 < W1
  {
    hide Le, Pow2;
    DropBytes(b, 25, 6);
    Pow2Of64();
    assert b[31..] == [b[31]];
    LeOne(b[31]);
  }

  // ---- fe_to_bytes: the conditional subtractions ----

  function Weight(i: nat): int
    requires i <= 5
  {
    match i case 0 => 1 case 1 => W1 case 2 => W2 case 3 => W3 case 4 => W4 case 5 => W5
  }

  /** The number the first `n` digits stand for. */
  function Part(s: seq<int>, n: nat): int
    requires n <= |s| && n <= 5
  {
    if n == 0 then 0 else Part(s, n - 1) + Weight(n - 1) * s[n - 1]
  }

  function Ints(f: Fe): (s: seq<int>)
    ensures |s| == 5
  {
    [f[0] as int, f[1] as int, f[2] as int, f[3] as int, f[4] as int]
  }

  lemma PartAll(s: seq<int>)
    requires |s| == 5
    ensures Part(s, 5) == s[0] + W1 * s[1] + W2 * s[2] + W3 * s[3] + W4 * s[4]
  {
    assert Part(s, 1) == s[0];
    assert Part(s, 2) == s[0] + W1 * s[1];
    assert Part(s, 3) == s[0] + W1 * s[1] + W2 * s[2];
    assert Part(s, 4) == s[0] + W1 * s[1] + W2 * s[2] + W3 * s[3];
  }

  lemma {:induction false} PartSame(s: seq<int>, t: seq<int>, n: nat)
    requires n <= |s| && n <= |t| && n <= 5 && s[..n] == t[..n]
    ensures Part(s, n) == Part(t, n)
  {
    if n > 0 {
      assert s[..n - 1] == s[..n][..n - 1] == t[..n][..n - 1] == t[..n - 1];
      PartSame(s, t, n - 1);
      assert s[n - 1] == s[..n][n - 1] == t[..n][n - 1] == t[n - 1];
    }
  }

  /** One borrow step: the digit and borrow account for the difference at this position. */
  lemma BorrowStep(s: seq<int>, f: seq<int>, p: seq<int>, i: nat, borrow: int, borrow': int, digit: int)
    requires i < 5 && |f| == |p| == 5 && |s| == i
    requires Part(s, i) == Part(f, i) - Part(p, i) + borrow * Weight(i)
    requires f[i] - p[i] - borrow == digit - 0x8_0000_0000_0000 * borrow'
    ensures Part(s + [digit], i + 1) == Part(f, i + 1) - Part(p, i + 1) + borrow' * Weight(i + 1)
  {
    PartSame(s + [digit], s, i);
    WeightStep(i);
    var w := Weight(i);
    hide Weight;
    assert w * (f[i] - p[i] - borrow) == w * f[i] - w * p[i] - w * borrow;
    assert w * (digit - 0x8_0000_0000_0000 * borrow') == w * digit - (w * 0x8_0000_0000_0000) * borrow';
  }

  lemma WeightStep(i: nat)
    requires i < 5
    ensures Weight(i + 1) == Weight(i) * 0x8_0000_0000_0000
  {
  }

  /** f - p with borrow, limb by limb. */
  method SubtractP(f: Fe) returns (sub: seq<int>, borrow: int)
    requires Reduced(f)
    ensures |sub| == 5 && (borrow == 0 || borrow == 1) && (forall i :: 0 <= i < 5 ==> 0 <= sub[i] < 0x8_0000_0000_0000)
    ensures Part(sub, 5) == Val(f) - P + borrow * W5
  {
    hide Part;
    ghost var fs, ps := Ints(f), Ints(P_LIMBS);
    NoDigits(fs, ps);
    sub, borrow := [], 0;
    var i := 0;
    while i < 5
      invariant 0 <= i <= 5 && |sub| == i && (borrow == 0 || borrow == 1)
      invariant forall j :: 0 <= j < i ==> 0 <= sub[j] < 0x8_0000_0000_0000
      invariant Part(sub, i) == Part(fs, i) - Part(ps, i) + borrow * Weight(i)
    {
      var d := f[i] as int - P_LIMBS[i] as int - borrow;
      var borrow' := if d < 0 then 1 else 0;
      var digit := if d < 0 then d + 0x8_0000_0000_0000 else d;
      BorrowStep(sub, fs, ps, i, borrow, borrow', digit);
      sub := sub + [digit];
      borrow := borrow';
      i := i + 1;
    }
    PartAll(fs);
    PartAll(ps);
  }

  lemma NoDigits(fs: seq<int>, ps: seq<int>)
    ensures Part([], 0) == Part(fs, 0) - Part(ps, 0)
  {
  }

  /** One pass: the modulus is subtracted if and only if the value has reached it. */
  method SubtractOnce(f: Fe) returns (g: Fe)
    requires Reduced(f)
    ensures Val(f) >= P ==> Val(g) == Val(f) - P && forall i :: 0 <= i < 5 ==> g[i] < LIMB
    ensures Val(f) < P ==> g == f
    ensures Reduced(g)
  {
    var sub, borrow := SubtractP(f);
    PartAll(sub);
    g := f;
    if borrow == 0 {
      g := [sub[0] as u64, sub[1] as u64, sub[2] as u64, sub[3] as u64, sub[4] as u64];
    }
  }

  // ---- fe_to_bytes: packing ----

  type Scratch = b: Bytes | |b| == 40 witness seq(40, _ => 0)

  lemma {:induction false} LeTake(bs: Bytes, n: nat)
    requires n <= |bs| && Le(bs) < Pow2(8 * n)
    ensures Le(bs[..n]) == Le(bs)
  {
    assert bs == bs[..n] + bs[n..];
    hide Le, Pow2;
    LeConcat(bs[..n], bs[n..]);
    NoQuotient(Le(bs), Le(bs[..n]), Le(bs[n..]), Pow2(8 * n));
  }

  lemma NoQuotient(v: nat, r: nat, q: nat, m: nat)
    requires v == r + m * q && v < m
    ensures v == r
  {
    if q >= 1 {
      MulMono(1, q, m);
    }
  }

  /** A 16-byte word placed at byte `off` of a 40-byte buffer; what would stick out is dropped. */
  function Placed(v: nat, off: nat): Scratch
    requires off <= 25
  {
    (seq(off, _ => 0) + ToLe(v, 16) + seq(40, _ => 0))[..40]
  }

  lemma PlacedValue(v: nat, off: nat)
    requires off <= 25 && v < Pow2(8 * 15)
    ensures Le(Placed(v, off)) == Pow2(8 * off) * v
  {
    var zeros: Bytes := seq(off, _ => 0);
    Pow2Mono(8 * 15, 8 * 16);
    hide Le, Pow2, ToLe;
    LeZeros(off);
    LeToLe(v, 16);
    LeConcat(zeros, ToLe(v, 16));
    LePad(zeros + ToLe(v, 16), 40);
    Pow2Add(8 * off, 8 * 15);
    Pow2Mono(8 * off + 8 * 15, 320);
    StrictMul(v, Pow2(8 * 15), Pow2(8 * off));
    LeTake(zeros + ToLe(v, 16) + seq(40, _ => 0), 40);
  }

  lemma StrictMul(a: int, b: int, c: int)
    requires a < b && c > 0
    ensures c * a < c * b
  {
  }

  /** Or-s one limb, shifted into place, into the buffer. */
  method OrLimb(acc: Scratch, off: nat, shift: nat, x: u64) returns (r: Scratch)
    requires off <= 25 && shift < 8
    ensures Pow2(8 * off + shift) * x as int >= 0
    ensures Le(r) == Or(Le(acc), Pow2(8 * off + shift) * x as int)
  {
    ShiftedWord(off, shift, x as int);
    var v := Pow2(shift) * x as int;
    var bytes := ToLe(v, 16);
    r := acc;
    var j := 0;
    while j < 16
      invariant 0 <= j <= 16
      invariant forall i :: 0 <= i < 40 ==>
                r[i] == if off <= i < off + j then OrByte(acc[i], bytes[i - off]) else acc[i]
    {
      if off + j < 40 {
        r := r[off + j := OrByte(r[off + j], bytes[j])];
      }
      j := j + 1;
    }
    OrLimbBytes(acc, r, v, off);
    PlacedValue(v, off);
    LeOr(acc, Placed(v, off));
  }

  lemma OrLimbBytes(acc: Scratch, r: Scratch, v: nat, off: nat)
    requires off <= 25
    requires forall i :: 0 <= i < 40 ==>
             r[i] == if off <= i < off + 16 then OrByte(acc[i], ToLe(v, 16)[i - off]) else acc[i]
    ensures r == OrBytes(acc, Placed(v, off))
  {
    hide ToLe;
    var placed := Placed(v, off);
    forall i | 0 <= i < 40 ensures r[i] == OrByte(acc[i], placed[i]) {
      assert placed[i] == if off <= i < off + 16 then ToLe(v, 16)[i - off] else 0;
      if placed[i] == 0 { OrNothing(acc[i]); }
    }
  }

  lemma OrNothing(a: byte)
    ensures OrByte(a, 0) == a
  {
  }

  lemma ShiftedWord(off: nat, shift: nat, x: nat)
    requires shift < 8 && x < TWO_64
    ensures Pow2(8 * off + shift) * x >= 0
    ensures 0 <= Pow2(shift) * x < Pow2(8 * 15) && Pow2(8 * off) * (Pow2(shift) * x) == Pow2(8 * off + shift) * x
  {
    Pow2Of64();
    Pow2Add(8 * off, shift);
    MulAssoc(Pow2(8 * off), Pow2(shift), x);
    Pow2Add(shift, 64);
    Pow2Mono(shift + 64, 8 * 15);
    StrictMul(x, Pow2(64), Pow2(shift));
    MulLe(0, 0, Pow2(shift), x);
    MulLe(0, 0, Pow2(8 * off + shift), x);
  }

  /** The five limbs or-ed into place. */
  function Packed(f: Fe): nat
  {
    Or(Or(Or(Or(Or(0, f[0] as int), W1 * f[1] as int), W2 * f[2] as int), W3 * f[3] as int), W4 * f[4] as int)
  }

  lemma Weights()
    ensures Pow2(51) == W1 && Pow2(102) == W2 && Pow2(153) == W3 && Pow2(204) == W4 && Pow2(255) == W5
  {
    hide Pow2;
    Pow2Of3();
    Pow2Of64();
    Pow2Add(48, 3);
    Pow2Add(51, 51);
    Pow2Add(102, 51);
    Pow2Add(153, 51);
    Pow2Add(204, 51);
  }

  lemma Pow2Of3()
    ensures Pow2(3) == 8
  {
  }

  method Pack(f: Fe) returns (acc: Scratch)
    ensures Le(acc) == Packed(f)
  {
    hide Le, Pow2, Or;
    acc := seq(40, _ => 0);
    LeZeros(40);
    Weights();
    One();
    acc := OrLimb(acc, 0, 0, f[0]);
    acc := OrLimb(acc, 6, 3, f[1]);
    acc := OrLimb(acc, 12, 6, f[2]);
    acc := OrLimb(acc, 19, 1, f[3]);
    acc := OrLimb(acc, 25, 4, f[4]);
  }

  lemma One()
    ensures Pow2(0) == 1
  {
  }

  /**
   A reduced element is torn when limb 1 has a 52nd bit and limb 2 already has the bit it would be or-ed onto:
   the two ones become one.
   */
  predicate Torn(f: Fe) { Val(f) < P && f[1] >= LIMB && f[2] % 2 == 1 }

  /** What packing makes of a reduced element that needs no more subtraction. */
  lemma PackedValue(f: Fe)
    requires Reduced(f) && Val(f) < P
    ensures Packed(f) == if Torn(f) then Val(f) - W2 else Val(f)
  {
    hide Or;
    PackedDigits(f[0] as int, f[1] as int, f[2] as int, f[3] as int, f[4] as int);
    OrBit(f[1] as int / W1, f[2] as int);
  }

  lemma PackedDigits(f0: nat, f1: nat, f2: nat, f3: nat, f4: nat)
    requires f0 < W1 && f1 < 2 * W1 && f2 < W1 && f3 < W1
    ensures Or(Or(Or(Or(Or(0, f0), W1 * f1), W2 * f2), W3 * f3), W4 * f4)
         == f0 + W1 * (f1 % W1) + W2 * Or(f1 / W1, f2) + W3 * f3 + W4 * f4
  {
    hide Or;
    var top, low := f1 / W1, f0 + W1 * (f1 % W1);
    OrZero(f0);
    OrLow(f0, f1);
    assert f0 + W1 * f1 == low + W2 * top && low < W2;
    OrSecond(low, top, f2);
    OrBit(top, f2);
    var b := low + W2 * Or(top, f2);
    assert b < W3;
    OrThird(b, f3);
    OrFourth(b + W3 * f3, f4);
  }

  lemma OrLow(a: nat, x: nat)
    requires a < W1
    ensures Or(a, W1 * x) == a + W1 * x
  {
    hide Or, Pow2;
    Weights();
    OrDisjoint(a, x, 51);
  }

  lemma OrSecond(low: nat, top: nat, x: nat)
    requires low < W2
    ensures Or(low + W2 * top, W2 * x) == low + W2 * Or(top, x)
  {
    hide Or, Pow2;
    Weights();
    OrZero(low);
    OrSplit(low, 0, top, x, 102);
  }

  lemma OrThird(a: nat, x: nat)
    requires a < W3
    ensures Or(a, W3 * x) == a + W3 * x
  {
    hide Or, Pow2;
    Weights();
    OrDisjoint(a, x, 153);
  }

  lemma OrFourth(a: nat, x: nat)
    requires a < W4
    ensures Or(a, W4 * x) == a + W4 * x
  {
    hide Or, Pow2;
    Weights();
    OrDisjoint(a, x, 204);
  }

  lemma OrBit(top: nat, x: nat)
    requires top <= 1
    ensures Or(top, x) == if top == 1 && x % 2 == 0 then x + 1 else x
  {
  }

  /**
   `fe_to_bytes`. The bytes are those of the canonical residue exactly when the element is not torn;
   a torn element comes out 2^102 too small.
   */
  method FeToBytes(f: Fe) returns (out: Bytes32)
    requires Reduced(f)
    ensures Le(out) == if Torn(f) then Val(f) - W2 else Val(f) % P
    ensures Le(out) == Val(f) % P <==> !Torn(f)
  {
    var g := SubtractOnce(f);
    g := SubtractOnce(g);
    OnlyOnce(f, g);
    PackedValue(g);
    var acc := Pack(g);
    FitsIn32(g);
    LeTake(acc, 32);
    out := acc[..32];
  }

  /** A reduced element is below twice the modulus, so the second pass changes nothing. */
  lemma OnlyOnce(f: Fe, g: Fe)
    requires Reduced(f) && Reduced(g)
    requires Val(f) >= P ==> Val(g) == Val(f) - P && forall i :: 0 <= i < 5 ==> g[i] < LIMB
    requires Val(f) < P ==> g == f
    ensures Val(g) == Val(f) % P < P && (Torn(f) <==> Torn(g))
  {
    if Val(f) >= P {
      DivUnique(Val(f), P, 1, Val(g));
    } else {
      DivUnique(Val(f), P, 0, Val(f));
    }
  }

  lemma FitsIn32(g: Fe)
    ensures Reduced(g) && Val(g) < P ==> Val(g) < Pow2(8 * 32)
  {
    Weights();
    Pow2Mono(255, 256);
  }

  /** Reading and writing: every byte string comes back as the least residue of its low 255 bits. */
  method RoundTrip(b: Bytes32) returns (out: Bytes32)
    ensures Le(out) == Le(b[31 := b[31] % 128]) % P
  {
    var f := FeFromBytes(b);
    out := FeToBytes(f);
  }

  /** Limbs below 2^51 are never torn, so for them the encoding is always canonical. */
  lemma NarrowIsNeverTorn(f: Fe)
    requires forall i :: 0 <= i < 5 ==> f[i] < LIMB
    ensures Reduced(f) && !Torn(f)
  {
    assert f[1] < LIMB;
  }

  /** But the field operations can produce a torn element: a sum of canonical ones, */
  lemma SumCanBeTorn()
    ensures var a: Fe := [0x7_FFFF_FFFF_FFFF, 0x7_FFFF_FFFF_FFFF, 1, 0, 0x7_FFFF_FFFF_FFFF];
            var b: Fe := [0, 0, 0, 0, 1];
            Reduced(a) && Reduced(b) && Val(a) < P && Val(b) < P
            && FeAdd(a, b) == [18, 0x8_0000_0000_0000, 1, 0, 0] && Torn(FeAdd(a, b))
  {
    hide Congruent, Torn, CarryReduce, Val;
    SmallValues();
    CarryOfSum();
    TornElement(18);
  }

  /** and a product of canonical ones, which is what `scalarmult` encodes. */
  lemma ProductCanBeTorn()
    ensures var a: Fe := [0x7_FFFF_FFFF_FFFF, 0x7_FFFF_FFFF_FFFF, 0, 0, 0x4_0000_0000_0000];
            var b: Fe := [2, 0, 0, 0, 0];
            Reduced(a) && Reduced(b) && Val(a) < P && Val(b) < P
            && FeMul(a, b) == [17, 0x8_0000_0000_0000, 1, 0, 0] && Torn(FeMul(a, b))
  {
    hide Congruent, Torn, CarryReduce, Val, Products;
    SmallValues();
    ProductsByTwo();
    CarryOfProduct();
    TornElement(17);
  }

  lemma TornElement(low: u64)
    requires low < 32
    ensures Torn([low, 0x8_0000_0000_0000, 1, 0, 0])
  {
  }

  lemma CarryOfSum()
    ensures CarryReduce([0x7_FFFF_FFFF_FFFF, 0x7_FFFF_FFFF_FFFF, 1, 0, 0x8_0000_0000_0000])
            == [18, 0x8_0000_0000_0000, 1, 0, 0]
  {
    hide Congruent, Shr51, Low51;
    Cut(0x7_FFFF_FFFF_FFFF, 0, 0x7_FFFF_FFFF_FFFF);
    Cut(1, 0, 1);
    Cut(0, 0, 0);
    Cut(0x8_0000_0000_0000, 1, 0);
  }

  lemma CarryOfProduct()
    ensures CarryReduce([0xF_FFFF_FFFF_FFFE, 0xF_FFFF_FFFF_FFFE, 0, 0, 0x8_0000_0000_0000])
            == [17, 0x8_0000_0000_0000, 1, 0, 0]
  {
    hide Congruent, Shr51, Low51;
    Cut(0xF_FFFF_FFFF_FFFE, 1, 0x7_FFFF_FFFF_FFFE);
    Cut(0xF_FFFF_FFFF_FFFF, 1, 0x7_FFFF_FFFF_FFFF);
    Cut(1, 0, 1);
    Cut(0, 0, 0);
    Cut(0x8_0000_0000_0000, 1, 0);
  }

  lemma Cut(x: u128, c: u64, m: u64)
    requires m < LIMB && c < 2 && x == m as u128 + 0x8_0000_0000_0000 * c as u128
    ensures Shr51(x) == c && Low51(x) == m
  {
  }

  lemma ProductsByTwo()
    ensures var a: Fe := [0x7_FFFF_FFFF_FFFF, 0x7_FFFF_FFFF_FFFF, 0, 0, 0x4_0000_0000_0000];
            Products(a, [2, 0, 0, 0, 0]) == [0xF_FFFF_FFFF_FFFE, 0xF_FFFF_FFFF_FFFE, 0, 0, 0x8_0000_0000_0000]
  {
    hide Congruent;
  }

  lemma SmallValues()
    ensures 0 <= Val([0x7_FFFF_FFFF_FFFF, 0x7_FFFF_FFFF_FFFF, 1, 0, 0x7_FFFF_FFFF_FFFF]) < P && Val([0, 0, 0, 0, 1]) < P
    ensures 0 <= Val([0x7_FFFF_FFFF_FFFF, 0x7_FFFF_FFFF_FFFF, 0, 0, 0x4_0000_0000_0000]) < P && Val([2, 0, 0, 0, 0]) < P
  {
  }

  // ---- which numbers are at risk ----

  /** The second digit to the base 2^51 is tiny, and the digits above it are an even number, not zero. */
  predicate AtRisk(x: int) { W2 <= x < P && x / W1 % W1 < 0x2000 && x / W2 % 2 == 0 }

  /** A number has a torn element that stands for it exactly if it is at risk; all others are always encoded right. */
  lemma TornValues(x: int)
    ensures (exists f: Fe :: Reduced(f) && Torn(f) && Val(f) == x) <==> AtRisk(x)
  {
    if f: Fe :| Reduced(f) && Torn(f) && Val(f) == x {
      TornIsAtRisk(f);
    }
    if AtRisk(x) {
      var f := TornFor(x);
      assert Reduced(f) && Torn(f) && Val(f) == x;
    }
  }

  lemma TornIsAtRisk(f: Fe)
    requires Reduced(f) && Torn(f)
    ensures AtRisk(Val(f))
  {
    var e := f[1] as int - W1;
    var up := f[2] as int + 1 + W1 * (f[3] as int + W1 * f[4] as int);
    assert Val(f) == f[0] as int + W1 * (e + W1 * up);
    DigitsOf(Val(f), f[0] as int, e, up);
  }

  lemma DigitsOf(v: int, low: int, e: int, up: int)
    requires v == low + W1 * (e + W1 * up) && 0 <= low < W1 && 0 <= e < W1 && up >= 0
    ensures v / W1 % W1 == e && v / W2 == up && v >= W2 * up
  {
    DivUnique(v, W1, e + W1 * up, low);
    DivUnique(e + W1 * up, W1, up, e);
    DivUnique(v, W2, up, low + W1 * e);
  }

  lemma TornFor(x: int) returns (f: Fe)
    requires AtRisk(x)
    ensures Reduced(f) && Torn(f) && Val(f) == x
  {
    var y := x - W2;
    LimbsValue(y);
    LimbsAre(y);
    LessOne(x);
    hide Limbs;
    var g := Limbs(y);
    f := g[1 := g[1] + LIMB];
    WithTear(g);
  }

  lemma LimbsAre(v: nat)
    ensures var f := Limbs(v); f[1] as int == v / W1 % W1 && f[2] as int == v / W1 / W1 % W1
  {
  }

  lemma WithTear(g: Fe)
    requires g[1] < 0x2000
    ensures Val(g[1 := g[1] + LIMB]) == Val(g) + W2
  {
  }

  /** Taking one from the third digit leaves the lower two alone. */
  lemma LessOne(x: nat)
    requires x >= W2
    ensures (x - W2) / W1 % W1 == x / W1 % W1 && (x - W2) / W1 / W1 == x / W2 - 1
    ensures (x / W2 - 1) % W1 % 2 == (x / W2 - 1) % 2
  {
    TwoStepDivision(x, W1, W1);
    assert (x - W2) / W1 == x / W1 - W1;
    assert (x / W1 - W1) % W1 == x / W1 % W1;
  }

  lemma LimbsValue(v: nat)
    requires v < W5
    ensures Val(Limbs(v)) == v
  {
    var v1 := v / W1;
    var v2 := v1 / W1;
    var v3 := v2 / W1;
    var v4 := v3 / W1;
    assert v == v % W1 + W1 * v1 && v1 == v1 % W1 + W1 * v2 && v2 == v2 % W1 + W1 * v3 && v3 == v3 % W1 + W1 * v4;
    assert v4 < W1;
  }
}
