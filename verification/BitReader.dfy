/** The bit reader of kernel/src/inflate.rs. */
module BitReaders {
  import opened Common
  import opened Bits

  type u32 = x: int | 0 <= x < 0x1_0000_0000

  /** The next byte boundary. */
  function Align(p: int): int { (p + 7) / 8 * 8 }

  class BitReader {
    const data: Bytes
    var bytePos: nat
    var bitBuf: u32
    var bitCnt: nat

    /** The input as a bit string, and how far it has been read. */
    ghost function Input(): BitString { BitsOf(data) }

    ghost function Pos(): int
      reads this
    {
      8 * bytePos - bitCnt
    }

    /** `bitBuf` holds the bits between `Pos()` and the next whole byte; fewer than 8 of them between calls. */
    ghost predicate Buffered()
      reads this
    {
      && bytePos <= |data|
      && bitCnt <= 8 * bytePos
      && bitBuf == Value(Input()[Pos()..8 * bytePos])
    }

    ghost predicate Valid()
      reads this
    {
      Buffered() && bitCnt < 8
    }

    constructor (data: Bytes)
      ensures Valid() && this.data == data && Pos() == 0
    {
      this.data := data;
      bytePos, bitBuf, bitCnt := 0, 0, 0;
    }

    method TakeBits(need: nat) returns (r: Option<nat>)
      requires Valid() && need <= 16
      modifies this
      ensures r == ReadBits(Input(), old(Pos()), need)
      ensures r.Some? ==> Valid() && Pos() == old(Pos()) + need
    {
      hide Low, High, Value, BitsOf, Pow2;
      while bitCnt < need
        invariant Buffered() && Pos() == old(Pos()) && bitCnt < need + 8
        decreases |data| - bytePos
      {
        if bytePos >= |data| {
          return None;
        }
        ghost var pos := Pos();
        AppendByte();
        bitBuf := bitBuf + Pow2(bitCnt) * data[bytePos];
        bytePos := bytePos + 1;
        bitCnt := bitCnt + 8;
        assert Pos() == pos;
      }
      ShiftOut(need);
      r := Some(Low(bitBuf, need));
      bitBuf := High(bitBuf, need);
      bitCnt := bitCnt - need;
    }

    /** Taking one more byte in extends the buffered field at its high end, and still fits the 32-bit buffer. */
    lemma AppendByte()
      requires Buffered() && bitCnt < 16 && bytePos < |data|
      ensures var v := bitBuf + Pow2(bitCnt) * data[bytePos];
              v == Value(Input()[Pos()..8 * bytePos + 8]) && v < 0x1_0000_0000
    {
      hide Pow2, Value, BitsOf;
      var s, low, high := Input(), Input()[Pos()..8 * bytePos], Input()[8 * bytePos..8 * bytePos + 8];
      ByteBits(data, bytePos);
      assert s[Pos()..8 * bytePos + 8] == low + high;
      ValueConcat(low, high);
      Pow2Mono(bitCnt + 8, 24);
      Pow2Of24();
      assert |low + high| == bitCnt + 8;
    }

    /** The low bits of the buffer are the next field; the rest stays buffered. */
    lemma ShiftOut(need: nat)
      requires Buffered() && need <= bitCnt
      ensures Low(bitBuf, need) == Value(Input()[Pos()..Pos() + need])
      ensures High(bitBuf, need) == Value(Input()[Pos() + need..8 * bytePos]) <= bitBuf
    {
      hide Low, High, Value, BitsOf;
      var s := Input()[Pos()..8 * bytePos];
      ValueSplit(s, need);
      assert s[..need] == Input()[Pos()..Pos() + need];
      assert s[need..] == Input()[Pos() + need..8 * bytePos];
    }

    /** Drops exactly the partial byte. */
    method AlignToByte()
      requires Valid()
      modifies this
      ensures Valid() && bitCnt == 0 && Pos() == Align(old(Pos()))
    {
      hide Pow2;
      bitBuf, bitCnt := 0, 0;
      assert Input()[8 * bytePos..8 * bytePos] == [];
    }

    method ReadBytes(n: nat) returns (r: Option<Bytes>)
      requires Valid() && bitCnt == 0
      modifies this
      ensures r == if old(Pos()) + 8 * n <= |Input()| then Some(BytesAt(Input(), old(Pos()), n)) else None
      ensures r.Some? ==> Valid() && bitCnt == 0 && Pos() == old(Pos()) + 8 * n
    {
      if bytePos + n > |data| {
        return None;
      }
      BytesAtData(data, bytePos, n);
      r := Some(data[bytePos..bytePos + n]);
      bytePos := bytePos + n;
    }
  }
}
