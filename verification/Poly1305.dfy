/** The authenticator of kernel/src/crypto/poly1305.rs, section 2.5 of RFC 8439, in radix 2^26. */
module Poly1305 {
  import opened BitwiseOr
  import opened Common
  import opened FiveLimbs
  import opened LittleEndian
  import opened Modular

  /** 2^130 - 5 */
  const P: int := 0x3_FFFF_FFFF_FFFF_FFFF_FFFF_FFFF_FFFF_FFFB
  const TWO_128: int := 0x1_0000_0000_0000_0000_0000_0000_0000_0000

  const W1: int := 0x400_0000
  const W2: int := 0x10_0000_0000_0000
  const W3: int := 0x4000_0000_0000_0000_0000
  const W4: int := 0x100_0000_0000_0000_0000_0000_0000

  type Limbs = s: seq<u64> | |s| == 5 witness [0, 0, 0, 0, 0]

  /** The number five limbs stand for. */
  function Val(h: Limbs): int
  {
    h[0] as int + W1 * h[1] as int + W2 * h[2] as int + W3 * h[3] as int + W4 * h[4] as int
  }

  // ---- section 2.5 of RFC 8439 ----

  type Key = k: Bytes | |k| == 32 witness seq(32, _ => 0)

  /** Clamping: the top four bits of bytes 3, 7, 11 and 15 and the bottom two of bytes 4, 8 and 12 are cleared. */
  function Clamped(r: Bytes): (c: Bytes)
    requires |r| == 16
    ensures |c| == 16
  {
    seq(16, i requires 0 <= i < 16 =>
      if i % 4 == 3 then r[i] % 16 else if i % 4 == 0 && i > 0 then r[i] - r[i] % 4 else r[i])
  }

  /** The mask of section 2.5 of RFC 8439, as a number and as bytes. */
  const R_MASK: nat := 0x0fff_fffc_0fff_fffc_0fff_fffc_0fff_ffff

  function MaskByte(i: nat): byte { if i % 4 == 3 then 0x0f else if i % 4 == 0 && i > 0 then 0xfc else 0xff }

  /** Clamping is and-ing with the mask. */
  lemma ClampIsMask(r: Bytes)
    requires |r| == 16
    ensures Le(Clamped(r)) == And(Le(r), R_MASK)
  {
    var mask: Bytes := seq(16, i requires 0 <= i < 16 => MaskByte(i));
    MaskValue(mask);
    forall i | 0 <= i < 16 ensures Clamped(r)[i] == And(r[i], mask[i]) { MaskedByte(r[i]); }
    hide And, Clamped;
    LeAnd(r, mask, Clamped(r));
  }

  lemma MaskedByte(b: byte)
    ensures And(b, 0xff) == b && And(b, 0x0f) == b % 16 && And(b, 0xfc) == b - b % 4
  {
    hide And, Pow2;
    SmallMasks();
    AndLow(b, 8);
    AndLow(b, 4);
    AndLow(b / 4, 6);
    AndNothing(b % 4);
    AndSplit(b % 4, 0, b / 4, 63, 2);
  }

  lemma SmallMasks()
    ensures Pow2(2) == 4 && Pow2(4) == 16 && Pow2(6) == 64 && Pow2(8) == 256
  {
  }

  lemma {:induction false} LeAnd(a: Bytes, b: Bytes, c: Bytes)
    requires |a| == |b| == |c| && forall i :: 0 <= i < |a| ==> c[i] == And(a[i], b[i])
    ensures Le(c) == And(Le(a), Le(b))
  {
    hide Pow2;
    if a != [] {
      LeAnd(a[1..], b[1..], c[1..]);
      LeHead(a);
      LeHead(b);
      LeHead(c);
      Pow2Of8();
      hide Le, And, Pow2;
      AndSplit(a[0], b[0], Le(a[1..]), Le(b[1..]), 8);
    }
  }

  lemma MaskValue(mask: Bytes)
    requires |mask| == 16 && forall i :: 0 <= i < 16 ==> mask[i] == MaskByte(i)
    ensures Le(mask) == R_MASK
  {
    hide Le;
    MaskWord(mask, 12, 0xfc);
    MaskWord(mask, 8, 0xfc);
    MaskWord(mask, 4, 0xfc);
    MaskWord(mask, 0, 0xff);
    assert mask[0..] == mask && mask[16..] == [];
    LeEmpty();
  }

  lemma MaskWord(m: Bytes, k: nat, low: byte)
    requires k + 4 <= |m| && m[k] == low && m[k + 1] == 0xff && m[k + 2] == 0xff && m[k + 3] == 0x0f
    ensures Le(m[k..]) == low + 0x0fff_ff00 + 0x1_0000_0000 * Le(m[k + 4..])
  {
    hide Le;
    LeHead(m[k..]);
    LeHead(m[k + 1..]);
    LeHead(m[k + 2..]);
    LeHead(m[k + 3..]);
    assert m[k..][1..] == m[k + 1..] && m[k + 1..][1..] == m[k + 2..];
    assert m[k + 2..][1..] == m[k + 3..] && m[k + 3..][1..] == m[k + 4..];
  }

  /** A message block with the one bit appended. */
  function BlockValue(chunk: Bytes): int { Le(chunk + [1]) }

  /** The accumulator after a message: for each block, add it and multiply by r, modulo 2^130 - 5. */
  function Accumulate(msg: Bytes, r: int, acc: int): (a: int)
    requires 0 <= acc < P
    ensures 0 <= a < P
    decreases |msg|
  {
    if msg == [] then acc
    else
      var n := if |msg| < 16 then |msg| else 16;
      Accumulate(msg[n..], r, (acc + BlockValue(msg[..n])) * r % P)
  }

  function Tag(key: Key, msg: Bytes): int
  {
    (Accumulate(msg, Le(Clamped(key[..16])), 0) + Le(key[16..])) % TWO_128
  }

  // ---- splitting into limbs ----

  type Buf17 = b: Bytes | |b| == 17 witness seq(17, _ => 0)

  /** `x >> 26` and `x & MASK26`. */
  function Shr26(x: u64): u64 { x / 0x400_0000 }

  function Mask26(x: u64): (m: u64)
    ensures m < 0x400_0000 && x as int == m as int + W1 * Shr26(x) as int
  {
    x % 0x400_0000
  }

  method LimbsFromBuf17(buf: Buf17) returns (limbs: Limbs)
    requires buf[16] < 4
    ensures Val(limbs) == Le(buf) && forall i :: 0 <= i < 5 ==> limbs[i] < 0x400_0000
  {
    var w0 := ReadU64At(buf, 0);
    var w1 := ReadU64At(buf, 3);
    var w2 := ReadU64At(buf, 6);
    var w3 := ReadU64At(buf, 9);
    var w4 := ReadU64At(buf, 13);
    limbs := [Mask26(w0), Mask26(w1 / 4), Mask26(w2 / 16), Mask26(w3 / 64), Mask26(w4)];
    Recombine(buf, w0 as int, w1 as int, w2 as int, w3 as int, w4 as int);
  }

  /** The five overlapping words cover the 130 bits of the buffer. */
  lemma Recombine(buf: Buf17, w0: nat, w1: nat, w2: nat, w3: nat, w4: nat)
    requires buf[16] < 4
    requires w0 == WordAt(buf, 0) && w1 == WordAt(buf, 3) && w2 == WordAt(buf, 6) && w3 == WordAt(buf, 9)
             && w4 == WordAt(buf, 13)
    ensures w0 % W1 + W1 * (w1 / 4 % W1) + W2 * (w2 / 16 % W1) + W3 * (w3 / 64 % W1) + W4 * (w4 % W1) == Le(buf)
  {
    hide Le, WordAt, Min;
    var n0, n3, n6, n9, n13 := Le(buf), Le(buf[3..]), Le(buf[6..]), Le(buf[9..]), Le(buf[13..]);
    assert buf[0..] == buf;
    WordIsLow(buf, 0);
    WordIsLow(buf, 3);
    WordIsLow(buf, 6);
    WordIsLow(buf, 9);
    WordIsLow(buf, 13);
    Skip3(buf, 0);
    Skip3(buf, 3);
    Skip3(buf, 6);
    Skip3(buf, 9);
    SkipByte(buf, 12);
    TopWord(buf);
    Slice0(n0, n3, w0);
    Slice1(n3, n6, w1);
    Slice2(n6, n9, w2);
    SliceTop(Le(buf[12..]), n9, n13, w3, w4);
    Stack(n0, n3 / 4, n6 / 16, n9 / 64, n13, W1, W2, W3, W4);
  }

  lemma SkipByte(buf: Buf17, off: nat)
    requires off < 17
    ensures Le(buf[off..]) == buf[off] + 256 * Le(buf[off + 1..])
  {
    LeHead(buf[off..]);
    assert buf[off..][1..] == buf[off + 1..];
  }

  lemma Skip3(buf: Buf17, off: nat)
    requires off + 3 <= 17
    ensures Le(buf[off..]) / 0x100_0000 == Le(buf[off + 3..])
  {
    Pow2Of24();
    DropBytes(buf, off, 3);
  }

  lemma TopWord(buf: Buf17)
    requires buf[16] < 4
    ensures Le(buf[13..]) < W1
  {
    hide Le;
    SkipByte(buf, 13);
    SkipByte(buf, 14);
    SkipByte(buf, 15);
    SkipByte(buf, 16);
    assert buf[17..] == [];
    LeEmpty();
  }

  // Neighbouring words: a limb ends where the next one, in the next word, begins.

  lemma Slice0(n0: nat, n3: nat, w0: nat)
    requires n0 / 0x100_0000 == n3 && w0 == n0 % TWO_64
    ensures n0 / W1 == n3 / 4 && w0 % W1 == n0 % W1
  {
    TwoStepDivision(n0, 0x100_0000, 4);
    assert n0 == w0 + TWO_64 * (n0 / TWO_64);
  }

  lemma Slice1(n3: nat, n6: nat, w1: nat)
    requires n3 / 0x100_0000 == n6 && w1 == n3 % TWO_64
    ensures n3 / 4 / W1 == n6 / 16 && w1 / 4 % W1 == n3 / 4 % W1
  {
    TwoStepDivision(n3, 4, W1);
    TwoStepDivision(n3, 0x100_0000, 16);
    SameLimb(n3, w1, 4, W1, 0x10_0000_0000);
  }

  lemma Slice2(n6: nat, n9: nat, w2: nat)
    requires n6 / 0x100_0000 == n9 && w2 == n6 % TWO_64
    ensures n6 / 16 / W1 == n9 / 64 && w2 / 16 % W1 == n6 / 16 % W1
  {
    TwoStepDivision(n6, 16, W1);
    TwoStepDivision(n6, 0x100_0000, 64);
    SameLimb(n6, w2, 16, W1, 0x4_0000_0000);
  }

  lemma SliceTop(n12: nat, n9: nat, n13: nat, w3: nat, w4: nat)
    requires n9 / 0x100_0000 == n12 && n12 / 256 == n13 < W1 && w3 == n9 % TWO_64 && w4 == n13 % TWO_64
    ensures n9 / 64 / W1 == n13 && w3 / 64 % W1 == n9 / 64 % W1 && w4 % W1 == n13
  {
  }

  // ---- one multiplication modulo 2^130 - 5 ----

  const H_MAX: u64 := 0x800_0400   // accumulator limbs with a block added
  const X_MAX: u64 := 0x1400_0000  // five times a limb of r

  predicate Bounded(h: Limbs, max: u64) { forall i :: 0 <= i < 5 ==> h[i] <= max }

  function Row(h: Limbs, x0: u64, x1: u64, x2: u64, x3: u64, x4: u64): (t: u64)
    requires Bounded(h, H_MAX) && x0 <= X_MAX && x1 <= X_MAX && x2 <= X_MAX && x3 <= X_MAX && x4 <= X_MAX
    ensures t as int == h[0] as int * x0 as int + h[1] as int * x1 as int + h[2] as int * x2 as int
            + h[3] as int * x3 as int + h[4] as int * x4 as int
    ensures t <= 0x400_0000_0000_0000
  {
    MulLe(h[0] as int, x0 as int, H_MAX as int, X_MAX as int);
    MulLe(h[1] as int, x1 as int, H_MAX as int, X_MAX as int);
    MulLe(h[2] as int, x2 as int, H_MAX as int, X_MAX as int);
    MulLe(h[3] as int, x3 as int, H_MAX as int, X_MAX as int);
    MulLe(h[4] as int, x4 as int, H_MAX as int, X_MAX as int);
    h[0] * x0 + h[1] * x1 + h[2] * x2 + h[3] * x3 + h[4] * x4
  }

  const W5: int := W4 * W1
  const W6: int := W4 * W2
  const W7: int := W4 * W3
  const W8: int := W4 * W4

  /** Positions above 4 may be folded back in five times, because 2^130 is 5 more than the modulus. */
  lemma Fold(d0: int, d1: int, d2: int, d3: int, d4: int, d5: int, d6: int, d7: int, d8: int)
    ensures Congruent(d0 + W1 * d1 + W2 * d2 + W3 * d3 + W4 * d4 + W5 * d5 + W6 * d6 + W7 * d7 + W8 * d8,
                      (d0 + 5 * d5) + W1 * (d1 + 5 * d6) + W2 * (d2 + 5 * d7) + W3 * (d3 + 5 * d8) + W4 * d4, P)
  {
    CongruentBy(d0 + W1 * d1 + W2 * d2 + W3 * d3 + W4 * d4 + W5 * d5 + W6 * d6 + W7 * d7 + W8 * d8,
                (d0 + 5 * d5) + W1 * (d1 + 5 * d6) + W2 * (d2 + 5 * d7) + W3 * (d3 + 5 * d8) + W4 * d4,
                d5 + W1 * d6 + W2 * d7 + W3 * d8, P);
  }

  /** The five rows `mul_mod` computes stand for the product modulo 2^130 - 5. */
  lemma Rows(h: Limbs, r: Limbs, t: Limbs)
    requires Bounded(h, H_MAX) && Bounded(r, 0x3FF_FFFF)
    requires t[0] == Row(h, r[0], r[4] * 5, r[3] * 5, r[2] * 5, r[1] * 5)
    requires t[1] == Row(h, r[1], r[0], r[4] * 5, r[3] * 5, r[2] * 5)
    requires t[2] == Row(h, r[2], r[1], r[0], r[4] * 5, r[3] * 5)
    requires t[3] == Row(h, r[3], r[2], r[1], r[0], r[4] * 5)
    requires t[4] == Row(h, r[4], r[3], r[2], r[1], r[0])
    ensures Congruent(Val(h) * Val(r), Val(t), P)
  {
    hide Row, Congruent;
    var h0, h1, h2, h3, h4 := h[0] as int, h[1] as int, h[2] as int, h[3] as int, h[4] as int;
    var r0, r1, r2, r3, r4 := r[0] as int, r[1] as int, r[2] as int, r[3] as int, r[4] as int;
    FullProduct(h0, h1, h2, h3, h4, r0, r1, r2, r3, r4, W1, W2, W3, W4, W5, W6, W7, W8);
    Fold(h0 * r0, h0 * r1 + h1 * r0, h0 * r2 + h1 * r1 + h2 * r0, h0 * r3 + h1 * r2 + h2 * r1 + h3 * r0,
         h0 * r4 + h1 * r3 + h2 * r2 + h3 * r1 + h4 * r0,
         h1 * r4 + h2 * r3 + h3 * r2 + h4 * r1, h2 * r4 + h3 * r3 + h4 * r2, h3 * r4 + h4 * r3, h4 * r4);
    RowTerms(h0, h1, h2, h3, h4, r0, r1, r2, r3, r4, 5);
  }

  /** Carrying moves multiples of 2^26 one limb up, and five times the overflow of the top limb back to the bottom. */
  method CarryWrap(t: Limbs, h: array<u64>)
    requires h.Length == 5 && Bounded(t, 0x800_0000_0000_0000)
    modifies h
    ensures h[0] < 0x400_0000 && h[1] < 0x400_0400 && h[2] < 0x400_0000 && h[3] < 0x400_0000 && h[4] < 0x400_0000
    ensures Congruent(Val(h[..]), Val(t), P)
  {
    hide Congruent;
    var c := Shr26(t[0]);
    h[0] := Mask26(t[0]);
    var t1 := t[1] + c;
    c := Shr26(t1);
    h[1] := Mask26(t1);
    var t2 := t[2] + c;
    c := Shr26(t2);
    h[2] := Mask26(t2);
    var t3 := t[3] + c;
    c := Shr26(t3);
    h[3] := Mask26(t3);
    var t4 := t[4] + c;
    c := Shr26(t4);
    h[4] := Mask26(t4);
    ghost var top := c as int;
    h[0] := h[0] + c * 5;
    c := Shr26(h[0]);
    h[0] := Mask26(h[0]);
    h[1] := h[1] + c;
    CongruentBy(Val(h[..]), Val(t), -top, P);
  }

  /** `h := h * r` modulo 2^130 - 5, in place. */
  method MulMod(h: array<u64>, r: Limbs)
    requires h.Length == 5 && Bounded(h[..], H_MAX) && Bounded(r, 0x3FF_FFFF)
    modifies h
    ensures h[0] < 0x400_0000 && h[1] < 0x400_0400 && h[2] < 0x400_0000 && h[3] < 0x400_0000 && h[4] < 0x400_0000
    ensures Congruent(Val(h[..]), Val(old(h[..])) * Val(r), P)
  {
    hide Congruent, Row;
    var a: Limbs := h[..];
    var r1_5, r2_5, r3_5, r4_5 := r[1] * 5, r[2] * 5, r[3] * 5, r[4] * 5;
    var t: Limbs := [
      Row(a, r[0], r4_5, r3_5, r2_5, r1_5),
      Row(a, r[1], r[0], r4_5, r3_5, r2_5),
      Row(a, r[2], r[1], r[0], r4_5, r3_5),
      Row(a, r[3], r[2], r[1], r[0], r4_5),
      Row(a, r[4], r[3], r[2], r[1], r[0])];
    Rows(a, r, t);
    CarryWrap(t, h);
    CongruentSymmetric(Val(a) * Val(r), Val(t), P);
    CongruentTransitive(Val(h[..]), Val(t), Val(a) * Val(r), P);
  }

  // ---- the message authentication code ----

  /** Limbs between blocks: one limb may exceed 26 bits a little. */
  predicate Carried(h: Limbs)
  {
    h[0] < 0x400_0000 && h[1] < 0x400_0400 && h[2] < 0x400_0000 && h[3] < 0x400_0000 && h[4] < 0x400_0000
  }

  method ClampAndSplitR(rBytes: Bytes) returns (r: Limbs)
    requires |rBytes| == 16
    ensures Val(r) == Le(Clamped(rBytes)) && Bounded(r, 0x3FF_FFFF)
  {
    var c := rBytes;
    c := c[3 := c[3] % 16];
    c := c[7 := c[7] % 16];
    c := c[11 := c[11] % 16];
    c := c[15 := c[15] % 16];
    c := c[4 := c[4] - c[4] % 4];
    c := c[8 := c[8] - c[8] % 4];
    c := c[12 := c[12] - c[12] % 4];
    assert c == Clamped(rBytes);
    LePad(c, 1);
    assert c + seq(1, _ => 0) == c + [0];
    r := LimbsFromBuf17(c + [0]);
  }

  /** The 17-byte buffer of one block: the chunk, a one byte, zeros. */
  function BlockBuffer(chunk: Bytes): Buf17
    requires |chunk| <= 16
  {
    chunk + [1] + seq(16 - |chunk|, _ => 0)
  }

  /** Limb by limb, without a carry. */
  method AddLimbs(h: array<u64>, limbs: Limbs)
    requires h.Length == 5 && Carried(h[..]) && Bounded(limbs, 0x3FF_FFFF)
    modifies h
    ensures Bounded(h[..], H_MAX) && Val(h[..]) == Val(old(h[..])) + Val(limbs)
  {
    h[0] := h[0] + limbs[0];
    h[1] := h[1] + limbs[1];
    h[2] := h[2] + limbs[2];
    h[3] := h[3] + limbs[3];
    h[4] := h[4] + limbs[4];
  }

  /** One round of the block loop: add the block's limbs, multiply by r. */
  method AddBlock(h: array<u64>, r: Limbs, chunk: Bytes, ghost acc: int, ghost rv: int)
    requires h.Length == 5 && Carried(h[..]) && Bounded(r, 0x3FF_FFFF) && Val(r) == rv && 1 <= |chunk| <= 16
    requires Congruent(Val(h[..]), acc, P)
    modifies h
    ensures Carried(h[..]) && Congruent(Val(h[..]), (acc + BlockValue(chunk)) * rv % P, P)
  {
    hide Congruent, Le, Val;
    LePad(chunk + [1], 16 - |chunk|);
    var limbs := LimbsFromBuf17(BlockBuffer(chunk));
    ghost var before := Val(h[..]);
    AddLimbs(h, limbs);
    MulMod(h, r);
    StepCongruent(Val(h[..]), before, BlockValue(chunk), acc, rv);
  }

  lemma StepCongruent(after: int, before: int, block: int, acc: int, r: int)
    requires Congruent(before, acc, P) && Congruent(after, (before + block) * r, P)
    ensures Congruent(after, (acc + block) * r % P, P)
  {
    CongruentAdd(before, acc, block, block, P);
    CongruentMul(before + block, acc + block, r, r, P);
    Residue((acc + block) * r, P);
  }

  /** The last carry pass leaves every limb below 2^26. */
  method FinalCarry(h: array<u64>)
    requires h.Length == 5 && Carried(h[..])
    modifies h
    ensures Bounded(h[..], 0x3FF_FFFF) && Congruent(Val(h[..]), old(Val(h[..])), P)
  {
    hide Congruent;
    var h0, h1, h2, h3, h4 := h[0], h[1], h[2], h[3], h[4];
    var c := Shr26(h0);
    h0 := Mask26(h0);
    h1 := h1 + c;
    c := Shr26(h1);
    h1 := Mask26(h1);
    h2 := h2 + c;
    c := Shr26(h2);
    h2 := Mask26(h2);
    h3 := h3 + c;
    c := Shr26(h3);
    h3 := Mask26(h3);
    h4 := h4 + c;
    c := Shr26(h4);
    h4 := Mask26(h4);
    ghost var top := c as int;
    // A carry out of the top limb needs one out of limb 1, which then has room for the last carry.
    assert c != 0 ==> h1 < 0x400;
    h0 := h0 + c * 5;
    c := Shr26(h0);
    h0 := Mask26(h0);
    h1 := h1 + c;
    ghost var before := Val(h[..]);
    h[0], h[1], h[2], h[3], h[4] := h0, h1, h2, h3, h4;
    CongruentBy(Val(h[..]), before, -top, P);
  }

  const P_LOW128: int := 0xFFFF_FFFF_FFFF_FFFF_FFFF_FFFF_FFFF_FFFB
  const P_EXTRA: int := 3

  /** The low 128 bits and the two bits above them, reduced below the modulus by subtracting it at most once. */
  method Reduce(h: Limbs) returns (low: u128)
    requires Bounded(h, 0x3FF_FFFF)
    ensures low as int == Val(h) % P % TWO_128
  {
    var h4 := h[4] as int;
    var l: int := h[0] as int + W1 * h[1] as int + W2 * h[2] as int + W3 * h[3] as int + W4 * (h4 % 0x100_0000);
    var extra := h4 / 0x100_0000;
    low := l as u128;
    assert Val(h) == low as int + TWO_128 * extra;
    assert P == P_LOW128 + TWO_128 * P_EXTRA;
    while extra > P_EXTRA || (extra == P_EXTRA && low as int >= P_LOW128)
      invariant 0 <= extra <= 3
      invariant Val(h) == low as int + TWO_128 * extra
                || (Val(h) == low as int + TWO_128 * extra + P && low as int + TWO_128 * extra < P)
      decreases extra
    {
      if low as int >= P_LOW128 {
        low := low - P_LOW128 as u128;
        extra := extra - P_EXTRA;
      } else {
        assert false;  // two bits never exceed 3, so nothing is ever borrowed from them
      }
    }
    DivUnique(low as int + TWO_128 * extra, TWO_128, extra, low as int);
    if Val(h) == low as int + TWO_128 * extra {
      DivUnique(Val(h), P, 0, Val(h));
    } else {
      DivUnique(Val(h), P, 1, Val(h) - P);
    }
  }

  lemma ZeroCongruent(h: Limbs)
    requires forall i :: 0 <= i < 5 ==> h[i] == 0
    ensures Val(h) == 0 && Congruent(Val(h), 0, P) && Carried(h)
  {
  }

  lemma NextBlock(msg: Bytes, r: int, acc: int)
    requires msg != [] && 0 <= acc < P
    ensures var n := Min(16, |msg|);
            0 <= (acc + BlockValue(msg[..n])) * r % P < P
            && Accumulate(msg, r, acc) == Accumulate(msg[n..], r, (acc + BlockValue(msg[..n])) * r % P)
  {
    Residue((acc + BlockValue(msg[..Min(16, |msg|)])) * r, P);
  }

  lemma AccumulateDone(r: int, acc: int)
    requires 0 <= acc < P
    ensures Accumulate([], r, acc) == acc
  {
  }

  lemma SameResidue(a: int, acc: int)
    requires Congruent(a, acc, P) && 0 <= acc < P
    ensures a % P == acc
  {
    DivUnique(acc, P, 0, acc);
  }

  lemma TagWord(acc: int, s: int)
    requires 0 <= acc < P && 0 <= s
    ensures (acc % TWO_128 + s) % TWO_128 == (acc + s) % TWO_128
  {
    CongruentBy(acc % TWO_128 + s, acc + s, -(acc / TWO_128), TWO_128);
  }

  lemma Pow2Of128()
    ensures Pow2(128) == TWO_128
  {
    Pow2Of64();
    hide Pow2;
    Pow2Add(64, 64);
  }

  /** The block loop of `mac`. */
  method Absorb(r: Limbs, message: Bytes, ghost rv: int) returns (h: array<u64>)
    requires Bounded(r, 0x3FF_FFFF) && Val(r) == rv
    ensures fresh(h) && h.Length == 5 && Carried(h[..]) && Congruent(Val(h[..]), Accumulate(message, rv, 0), P)
  {
    hide Congruent, Le, Accumulate, Val;
    h := new u64[5](_ => 0);
    ghost var acc := 0;
    ZeroCongruent(h[..]);
    var offset := 0;
    while offset < |message|
      invariant offset <= |message| && 0 <= acc < P
      invariant Carried(h[..]) && Congruent(Val(h[..]), acc, P)
      invariant Accumulate(message[offset..], rv, acc) == Accumulate(message, rv, 0)
    {
      var end := Min(offset + 16, |message|);
      NextBlock(message[offset..], rv, acc);
      AddBlock(h, r, message[offset..end], acc, rv);
      assert message[offset..][..end - offset] == message[offset..end];
      assert message[offset..][end - offset..] == message[end..];
      acc := (acc + BlockValue(message[offset..end])) * rv % P;
      offset := end;
    }
    assert message[offset..] == [];
    AccumulateDone(rv, acc);
  }

  /** `mac` is the tag of section 2.5 of RFC 8439, for every key and message. */
  method Mac(key: Key, message: Bytes) returns (tag: Bytes)
    ensures |tag| == 16 && Le(tag) == Tag(key, message)
  {
    hide Congruent, Le, Accumulate, Val, ToLe, Clamped;
    var r := ClampAndSplitR(key[..16]);
    ghost var rv := Le(Clamped(key[..16]));
    ghost var acc := Accumulate(message, rv, 0);
    var h := Absorb(r, message, rv);
    ghost var carried := Val(h[..]);
    FinalCarry(h);
    CongruentTransitive(Val(h[..]), carried, acc, P);
    var low := Reduce(h[..]);
    SameResidue(Val(h[..]), acc);
    var s := Le(key[16..]);
    var t := (low as int + s) % TWO_128;
    TagWord(acc, s);
    tag := ToLe(t, 16);
    Pow2Of128();
    LeToLe(t, 16);
  }

  // ---- the accumulator as a polynomial in r ----

  function Blocks(msg: Bytes): nat { (|msg| + 15) / 16 }

  /** The sum of block_i * r^(n - i), the i-th of n blocks counted from 0. */
  function BlockSum(msg: Bytes, r: int): int
    decreases |msg|
  {
    if msg == [] then 0
    else
      var n := Min(16, |msg|);
      BlockValue(msg[..n]) * Power(r, Blocks(msg)) + BlockSum(msg[n..], r)
  }

  /** The block-by-block accumulator is the polynomial of section 2.5 of RFC 8439 evaluated at r, modulo 2^130 - 5. */
  lemma {:induction false} AccumulateIsPolynomial(msg: Bytes, r: int, acc: int)
    requires 0 <= acc < P
    ensures Congruent(Accumulate(msg, r, acc), acc * Power(r, Blocks(msg)) + BlockSum(msg, r), P)
    decreases |msg|
  {
    hide Congruent, Le;
    if msg == [] {
      AccumulateDone(r, acc);
      CongruentBy(acc, acc * 1, 0, P);
    } else {
      var n := Min(16, |msg|);
      var block, rest := BlockValue(msg[..n]), msg[n..];
      var next := (acc + block) * r % P;
      NextBlock(msg, r, acc);
      AccumulateIsPolynomial(rest, r, next);
      assert Blocks(msg) == Blocks(rest) + 1;
      PolynomialStep(Accumulate(rest, r, next), acc, block, r, Power(r, Blocks(rest)), BlockSum(rest, r));
    }
  }

  /** The tag is the formula of section 2.5 of RFC 8439: the polynomial modulo 2^130 - 5, plus s, modulo 2^128. */
  lemma TagIsFormula(key: Key, msg: Bytes)
    ensures Tag(key, msg) == (BlockSum(msg, Le(Clamped(key[..16]))) % P + Le(key[16..])) % TWO_128
  {
    hide Le, Clamped, BlockSum, Accumulate;
    var r := Le(Clamped(key[..16]));
    AccumulateIsPolynomial(msg, r, 0);
    DivUnique(Accumulate(msg, r, 0), P, 0, Accumulate(msg, r, 0));
  }

  lemma PolynomialStep(total: int, acc: int, block: int, r: int, power: int, sum: int)
    requires Congruent(total, ((acc + block) * r % P) * power + sum, P)
    ensures Congruent(total, acc * (r * power) + (block * (r * power) + sum), P)
  {
    hide Congruent;
    var m := (acc + block) * r;
    Residue(m, P);
    CongruentReflexive(power, P);
    CongruentReflexive(sum, P);
    CongruentMul(m % P, m, power, power, P);
    CongruentAdd((m % P) * power, m * power, sum, sum, P);
    MulDistrib(acc, block, r * power);
    MulAssoc(acc + block, r, power);
    CongruentTransitive(total, (m % P) * power + sum, m * power + sum, P);
  }
}
