/**
 LEB128 integers as kernel/src/wasm.rs reads them. The readers accumulate into a 64-bit word,
 7 bits a byte; `|=` of a shifted 7-bit group into the zero bits above it is an addition here.
 */
module Leb128 {
  import opened Common

  // Both readers return the value and the position after it; a 64-bit pattern for the signed one.

  function Uleb(data: Bytes, pos: nat, shift: nat): (r: Option<(nat, nat)>)
    ensures r.Some? ==> pos < r.value.1
    decreases |data| - pos
  {
    if pos >= |data| then None
    else
      var group := (data[pos] % 128 * Pow2(shift)) % TWO_64;
      if data[pos] < 128 then Some((group, pos + 1))
      else if shift + 7 >= 64 then None
      else match Uleb(data, pos + 1, shift + 7)
        case None => None
        case Some((v, p)) => Some((group + v, p))
  }

  function Sleb(data: Bytes, pos: nat, shift: nat): (r: Option<(nat, nat)>)
    ensures r.Some? ==> pos < r.value.1
    decreases |data| - pos
  {
    if pos >= |data| then None
    else
      var group := (data[pos] % 128 * Pow2(shift)) % TWO_64;
      if data[pos] < 128 then
        if shift + 7 < 64 && data[pos] >= 64 then Some((group + (TWO_64 - Pow2(shift + 7)) % TWO_64, pos + 1))
        else Some((group, pos + 1))
      else if shift + 7 >= 64 then None
      else match Sleb(data, pos + 1, shift + 7)
        case None => None
        case Some((v, p)) => Some((group + v, p))
  }

  method ReadUleb128(data: Bytes, pos: nat) returns (r: Option<(nat, nat)>)
    ensures r == Uleb(data, pos, 0)
  {
    var result, shift, p := 0, 0, pos;
    ghost var whole := Uleb(data, pos, 0);
    while true
      invariant match Uleb(data, p, shift)
                case None => whole == None
                case Some((v, q)) => whole == Some((result + v, q))
      decreases |data| - p
    {
      if p >= |data| {
        return None;
      }
      var b := data[p];
      p := p + 1;
      result := result + (b % 128 * Pow2(shift)) % TWO_64;
      if b < 128 {
        return Some((result, p));
      }
      shift := shift + 7;
      if shift >= 64 {
        return None;
      }
    }
  }

  method ReadSleb128(data: Bytes, pos: nat) returns (r: Option<(nat, nat)>)
    ensures r == Sleb(data, pos, 0)
  {
    var result, shift, p := 0, 0, pos;
    ghost var whole := Sleb(data, pos, 0);
    while true
      invariant match Sleb(data, p, shift)
                case None => whole == None
                case Some((v, q)) => whole == Some((result + v, q))
      decreases |data| - p
    {
      if p >= |data| {
        return None;
      }
      var b := data[p];
      p := p + 1;
      result := result + (b % 128 * Pow2(shift)) % TWO_64;
      shift := shift + 7;
      if b < 128 {
        if shift < 64 && b >= 64 {
          result := result + (TWO_64 - Pow2(shift)) % TWO_64;
        }
        return Some((result, p));
      }
      if shift >= 64 {
        return None;
      }
    }
  }

  // Encodings of a fixed width `n`, padded with continuation bytes: the forms a toolchain may emit.

  predicate FitsU(v: int, n: nat) { n >= 1 && 0 <= v < Pow2(7 * n) }

  predicate FitsS(v: int, n: nat) { n >= 1 && -(Pow2(7 * n - 1) as int) <= v < Pow2(7 * n - 1) }

  function EncodeU(v: int, n: nat): (bs: Bytes)
    requires FitsU(v, n)
    ensures |bs| == n
    decreases n
  {
    if n == 1 then assert Pow2(7) == 128; [v]
    else ShrinkU(v, n); [v % 128 + 128] + EncodeU(v / 128, n - 1)
  }

  function EncodeS(v: int, n: nat): (bs: Bytes)
    requires FitsS(v, n)
    ensures |bs| == n
    decreases n
  {
    if n == 1 then [v % 128]
    else ShrinkS(v, n); [v % 128 + 128] + EncodeS(v / 128, n - 1)
  }

  lemma ShrinkU(v: int, n: nat)
    requires n >= 2 && FitsU(v, n)
    ensures FitsU(v / 128, n - 1)
  {
    Pow2Add(7, 7 * (n - 1));
    assert Pow2(7) == 128;
  }

  lemma ShrinkS(v: int, n: nat)
    requires n >= 2 && FitsS(v, n)
    ensures FitsS(v / 128, n - 1)
  {
    Pow2Add(7, 7 * (n - 1) - 1);
    assert Pow2(7) == 128;
  }

  // Reading an encoding that stands at `pos`, whatever follows it, gives the value back.

  lemma EncodeUBytes(v: int, n: nat)
    requires FitsU(v, n)
    ensures n == 1 ==> 0 <= v < 128 && EncodeU(v, n)[0] == v
    ensures n > 1 ==> EncodeU(v, n)[0] == v % 128 + 128 && (v % 128 + 128) % 128 == v % 128
    ensures n > 1 ==> FitsU(v / 128, n - 1) && EncodeU(v, n)[1..] == EncodeU(v / 128, n - 1)
  {
    Pow2At63();
    if n > 1 {
      ShrinkU(v, n);
    }
  }

  lemma {:induction false} UlebRoundTripAt(data: Bytes, pos: nat, v: int, n: nat, shift: nat)
    requires FitsU(v, n) && pos + n <= |data| && data[pos..pos + n] == EncodeU(v, n)
    requires shift + 7 * (n - 1) <= 63 && v < Pow2(64 - shift)
    ensures Uleb(data, pos, shift) == Some((v * Pow2(shift), pos + n))
    decreases n
  {
    hide Pow2;
    assert data[pos] == EncodeU(v, n)[0];
    EncodeUBytes(v, n);
    if n == 1 {
      WordFits(v, shift, 64);
      SmallMod(v * Pow2(shift));
    } else {
      GroupFits(v, shift);
      assert data[pos + 1..pos + n] == EncodeU(v, n)[1..];
      StepDown(v, 64 - shift);
      UlebRoundTripAt(data, pos + 1, v / 128, n - 1, shift + 7);
      SplitGroup(v, shift);
    }
  }

  lemma Pow2At63()
    ensures Pow2(7) == 128 && Pow2(56) == 0x100_0000_0000_0000 && Pow2(63) == 0x8000_0000_0000_0000
  {
    assert Pow2(7) == 128;
    hide Pow2;
    Pow2Add(7, 7);
    Pow2Add(14, 14);
    Pow2Add(28, 28);
    Pow2Add(56, 7);
  }

  /** Dropping seven bits leaves seven bits less. */
  lemma StepDown(v: int, w: nat)
    requires w >= 7
    ensures v < Pow2(w) ==> v / 128 < Pow2(w - 7)
    ensures -(Pow2(w) as int) <= v ==> -(Pow2(w - 7) as int) <= v / 128
  {
    Pow2At63();
    Pow2Add(7, w - 7);
    hide Pow2;
  }

  /** A value below 2^(width - shift) stays below 2^width when shifted. */
  lemma WordFits(v: nat, shift: nat, width: nat)
    requires shift <= width && v < Pow2(width - shift)
    ensures 0 <= v * Pow2(shift) < Pow2(width)
    ensures width == 64 ==> Pow2(width) == TWO_64
  {
    Pow2Add(width - shift, shift);
    MulLe(v, Pow2(shift), Pow2(width - shift) - 1, Pow2(shift));
    assert (Pow2(width - shift) - 1) * Pow2(shift) == Pow2(width) - Pow2(shift);
    if width == 64 {
      Pow2At63();
    }
  }

  lemma GroupFits(v: int, shift: nat)
    requires shift + 7 <= 63
    ensures (v % 128 * Pow2(shift)) % TWO_64 == v % 128 * Pow2(shift)
  {
    Pow2Mono(shift, 56);
    Pow2At63();
    MulLe(v % 128, Pow2(shift), 127, Pow2(56));
    SmallMod(v % 128 * Pow2(shift));
  }

  lemma SmallMod(x: int)
    requires 0 <= x < TWO_64
    ensures x % TWO_64 == x
  {
  }

  lemma SplitGroup(v: int, shift: nat)
    ensures v % 128 * Pow2(shift) + v / 128 * Pow2(shift + 7) == v * Pow2(shift)
  {
    Pow2Add(7, shift);
    Pow2At63();
    hide Pow2;
    MulDistrib(v / 128 * 128, v % 128, Pow2(shift));
    MulAssoc(v / 128, 128, Pow2(shift));
  }

  // The 64-bit two's complement pattern of v * 2^shift.
  function Pattern(v: int, shift: nat): int { if v < 0 then v * Pow2(shift) + TWO_64 else v * Pow2(shift) }

  lemma EncodeSBytes(v: int, n: nat)
    requires FitsS(v, n)
    ensures n == 1 ==> -64 <= v < 64 && EncodeS(v, n)[0] == v % 128 == if v < 0 then v + 128 else v
    ensures n > 1 ==> EncodeS(v, n)[0] == v % 128 + 128 && (v % 128 + 128) % 128 == v % 128
    ensures n > 1 ==> FitsS(v / 128, n - 1) && EncodeS(v, n)[1..] == EncodeS(v / 128, n - 1)
  {
    if n == 1 {
      assert Pow2(6) == 64;
    } else {
      ShrinkS(v, n);
    }
  }

  lemma {:induction false} SlebRoundTripAt(data: Bytes, pos: nat, v: int, n: nat, shift: nat)
    requires FitsS(v, n) && pos + n <= |data| && data[pos..pos + n] == EncodeS(v, n)
    requires shift + 7 * (n - 1) <= 63 && -(Pow2(63 - shift) as int) <= v < Pow2(63 - shift)
    ensures Sleb(data, pos, shift) == Some((Pattern(v, shift), pos + n))
    decreases n
  {
    hide Pow2, Sleb;
    assert data[pos] == EncodeS(v, n)[0];
    EncodeSBytes(v, n);
    if n == 1 {
      SlebLast(data, pos, v, shift);
    } else {
      SlebStep(data, pos, v, shift);
      StepDown(v, 63 - shift);
      assert data[pos + 1..pos + n] == EncodeS(v, n)[1..];
      SlebRoundTripAt(data, pos + 1, v / 128, n - 1, shift + 7);
      SplitGroup(v, shift);
    }
  }

  lemma SlebLast(data: Bytes, pos: nat, v: int, shift: nat)
    requires -64 <= v < 64 && shift <= 63 && -(Pow2(63 - shift) as int) <= v < Pow2(63 - shift)
    requires pos < |data| && data[pos] == if v < 0 then v + 128 else v
    ensures Sleb(data, pos, shift) == Some((Pattern(v, shift), pos + 1))
  {
    hide Pow2;
    if shift + 7 < 64 {
      LastGroup(v, shift);
    } else {
      TopGroup(v, shift);
    }
  }

  lemma SlebStep(data: Bytes, pos: nat, v: int, shift: nat)
    requires shift + 7 <= 63 && pos < |data| && data[pos] == v % 128 + 128
    ensures match Sleb(data, pos + 1, shift + 7)
            case None => Sleb(data, pos, shift) == None
            case Some((w, p)) => Sleb(data, pos, shift) == Some((v % 128 * Pow2(shift) + w, p))
  {
    hide Pow2;
    GroupFits(v, shift);
  }

  /** A last group that reaches past bit 63: the bits above are shifted out, and the sign needs no extension. */
  lemma TopGroup(v: int, shift: nat)
    requires -64 <= v < 64 && 57 <= shift <= 63 && -(Pow2(63 - shift) as int) <= v < Pow2(63 - shift)
    ensures var u := if v < 0 then v + 128 else v;
            u % 128 == u && (u * Pow2(shift)) % TWO_64 == Pattern(v, shift)
  {
    hide Pow2;
    Pow2At63();
    if v >= 0 {
      WordFits(v, shift, 63);
      SmallMod(v * Pow2(shift));
    } else {
      ShiftedOut(v, shift);
      AddsWhole(v * Pow2(shift) + TWO_64, Pow2(shift - 57) - 1);
    }
  }

  lemma ShiftedOut(v: int, shift: nat)
    requires -64 <= v < 0 && 57 <= shift <= 63 && -(Pow2(63 - shift) as int) <= v
    ensures 0 <= v * Pow2(shift) + TWO_64 < TWO_64
    ensures (v + 128) * Pow2(shift) == v * Pow2(shift) + TWO_64 + (Pow2(shift - 57) - 1) * TWO_64
  {
    hide Pow2;
    SevenUp(shift);
    ScaledBounds(v, Pow2(63 - shift), Pow2(shift));
    SurplusWord(v, Pow2(shift), Pow2(shift - 57));
  }

  lemma ScaledBounds(v: int, low: nat, p: nat)
    requires -(low as int) <= v < 0 && p > 0 && low * p < TWO_64
    ensures 0 <= v * p + TWO_64 < TWO_64
  {
    MulLe(-v, p, low, p);
    MulMono(1, -v, p);
    MulAssoc(-1, v, p);
  }

  lemma SurplusWord(v: int, p: nat, k: nat)
    requires 128 * p == k * TWO_64
    ensures (v + 128) * p == v * p + TWO_64 + (k - 1) * TWO_64
  {
    MulDistrib(v, 128, p);
  }

  lemma SevenUp(shift: nat)
    requires 57 <= shift <= 63
    ensures 128 * Pow2(shift) == Pow2(shift - 57) * TWO_64 && Pow2(63 - shift) * Pow2(shift) < TWO_64
  {
    hide Pow2;
    Pow2At63();
    Pow2Of64();
    Pow2Add(7, shift);
    Pow2Add(64, shift - 57);
    Pow2Add(63 - shift, shift);
  }

  lemma AddsWhole(x: int, k: int)
    requires 0 <= x < TWO_64
    ensures (x + k * TWO_64) % TWO_64 == x
  {
    DivUnique(x + k * TWO_64, TWO_64, k, x);
  }

  lemma LastGroup(v: int, shift: nat)
    requires -64 <= v < 64 && shift + 7 < 64
    ensures 0 < TWO_64 - Pow2(shift + 7) < TWO_64
    ensures var u := if v < 0 then v + 128 else v; u % 128 == u && (u * Pow2(shift)) % TWO_64 == u * Pow2(shift)
    ensures v < 0 ==> (v + 128) * Pow2(shift) + (TWO_64 - Pow2(shift + 7)) == v * Pow2(shift) + TWO_64
  {
    Pow2Add(shift, 7);
    Pow2Mono(shift + 7, 63);
    Pow2At63();
    GroupFits(if v < 0 then v + 128 else v, shift);
    if v < 0 {
      assert (v + 128) * Pow2(shift) == v * Pow2(shift) + 128 * Pow2(shift);
    }
  }

  // ---- what is refused ----

  /** The `n` bytes from `pos` on are one encoding: all but the last have the continuation bit. */
  predicate EndsAfter(data: Bytes, pos: nat, n: nat) {
    && n >= 1 && pos + n <= |data| && data[pos + n - 1] < 128
    && forall i :: pos <= i < pos + n - 1 ==> data[i] >= 128
  }

  /** An integer is read, to the end of its encoding, if and only if that is there within ten bytes. */
  lemma LebReads(data: Bytes, pos: nat, n: nat)
    ensures Uleb(data, pos, 0).Some? && Uleb(data, pos, 0).value.1 == pos + n <==> EndsAfter(data, pos, n) && n <= 10
    ensures Sleb(data, pos, 0).Some? && Sleb(data, pos, 0).value.1 == pos + n <==> EndsAfter(data, pos, n) && n <= 10
  {
    hide Pow2, Uleb, Sleb;
    UlebReadsFrom(data, pos, 0, n);
    SlebReadsFrom(data, pos, 0, n);
  }

  lemma {:induction false} UlebReadsFrom(data: Bytes, pos: nat, shift: nat, n: nat)
    requires shift <= 63
    ensures Uleb(data, pos, shift).Some? && Uleb(data, pos, shift).value.1 == pos + n
            <==> EndsAfter(data, pos, n) && shift + 7 * (n - 1) <= 63
    decreases |data| - pos
  {
    hide Pow2;
    if n >= 1 && pos < |data| && data[pos] >= 128 && shift + 7 <= 63 {
      UlebReadsFrom(data, pos + 1, shift + 7, n - 1);
      OneByteMore(data, pos, n);
    }
  }

  lemma {:induction false} SlebReadsFrom(data: Bytes, pos: nat, shift: nat, n: nat)
    requires shift <= 63
    ensures Sleb(data, pos, shift).Some? && Sleb(data, pos, shift).value.1 == pos + n
            <==> EndsAfter(data, pos, n) && shift + 7 * (n - 1) <= 63
    decreases |data| - pos
  {
    hide Pow2;
    if n >= 1 && pos < |data| && data[pos] >= 128 && shift + 7 <= 63 {
      SlebReadsFrom(data, pos + 1, shift + 7, n - 1);
      OneByteMore(data, pos, n);
    }
  }

  lemma OneByteMore(data: Bytes, pos: nat, n: nat)
    requires pos < |data| && data[pos] >= 128 && n >= 1
    ensures EndsAfter(data, pos, n) <==> n >= 2 && EndsAfter(data, pos + 1, n - 1)
  {
  }
}
