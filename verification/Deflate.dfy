/**
 The DEFLATE decoder of kernel/src/inflate.rs: what it accepts, as a parser of bit strings, and the decoder itself.
 */
module Deflate {
  import opened Common
  import opened Bits
  import opened BitReaders
  import opened HuffmanCode
  import opened HuffmanTable

  // Section 3.2.5 of RFC 1951.

  const LENGTH_BASE: seq<nat> := [
    3, 4, 5, 6, 7, 8, 9, 10, 11, 13, 15, 17, 19, 23, 27, 31, 35, 43, 51, 59, 67, 83, 99, 115, 131, 163, 195, 227, 258]
  const LENGTH_EXTRA: seq<nat> := [
    0, 0, 0, 0, 0, 0, 0, 0, 1, 1, 1, 1, 2, 2, 2, 2, 3, 3, 3, 3, 4, 4, 4, 4, 5, 5, 5, 5, 0]
  const DIST_BASE: seq<nat> := [
    1, 2, 3, 4, 5, 7, 9, 13, 17, 25, 33, 49, 65, 97, 129, 193, 257, 385, 513, 769, 1025, 1537, 2049, 3073, 4097, 6145,
    8193, 12289, 16385, 24577]
  const DIST_EXTRA: seq<nat> := [
    0, 0, 0, 0, 1, 1, 2, 2, 3, 3, 4, 4, 5, 5, 6, 6, 7, 7, 8, 8, 9, 9, 10, 10, 11, 11, 12, 12, 13, 13]
  function LengthBase(i: nat): nat
    requires i < 29
  {
    LENGTH_BASE[i]
  }

  function LengthExtra(i: nat): (n: nat)
    requires i < 29
    ensures n <= 5
  {
    LENGTH_EXTRA[i]
  }

  function DistBase(i: nat): (d: nat)
    requires i < 30
    ensures d >= 1
  {
    DIST_BASE[i]
  }

  function DistExtra(i: nat): (n: nat)
    requires i < 30
    ensures n <= 13
  {
    DIST_EXTRA[i]
  }

  const CODE_LENGTH_ORDER: seq<nat> := [16, 17, 18, 0, 8, 7, 9, 6, 10, 5, 11, 4, 12, 3, 13, 2, 14, 1, 15]

  function Order(k: nat): (sym: nat)
    requires k < 19
    ensures sym < 19
  {
    CODE_LENGTH_ORDER[k]
  }

  function Repeat(v: nat, n: nat): (s: seq<nat>)
    ensures |s| == n && forall i :: 0 <= i < n ==> s[i] == v
  {
    seq(n, _ => v)
  }

  /** The code lengths of the fixed tables (section 3.2.6; the code leaves out the two unused distance codes). */
  function FixedLiteral(): Lengths { Repeat(8, 144) + Repeat(9, 112) + Repeat(7, 24) + Repeat(8, 8) }

  function FixedDistance(): Lengths { Repeat(5, 30) }

  // ---- compressed blocks ----

  /** An LZ77 copy one byte at a time, so that it may read bytes it has just written. */
  function Copy(out: Bytes, distance: nat, length: nat): (r: Bytes)
    requires 1 <= distance <= |out|
    ensures |r| == |out| + length
    decreases length
  {
    if length == 0 then out else Copy(out + [out[|out| - distance]], distance, length - 1)
  }

  /** Length and distance of the match whose length symbol has just been read, and the position after them. */
  function MatchAt(s: BitString, p: nat, sym: nat, dist: Lengths): (r: Option<(nat, nat, nat)>)
    requires 257 <= sym <= 285
    ensures r.Some? ==> p < r.value.2 <= |s| && r.value.1 >= 1
  {
    var extra := ReadBits(s, p, LengthExtra(sym - 257));
    if extra == None then None
    else
      var p1 := p + LengthExtra(sym - 257);
      match DecodeSymbol(s, p1, dist)
      case None => None
      case Some((d, p2)) =>
        if d >= 30 then None
        else
          var distExtra := ReadBits(s, p2, DistExtra(d));
          if distExtra == None then None
          else Some((LengthBase(sym - 257) + extra.value, DistBase(d) + distExtra.value, p2 + DistExtra(d)))
  }

  /** The symbol stream of one block, appended to `out`. */
  function BlockAt(s: BitString, p: nat, lit: Lengths, dist: Lengths, out: Bytes): (r: Option<(Bytes, nat)>)
    ensures r.Some? ==> p < r.value.1 <= |s|
    decreases |s| - p
  {
    match DecodeSymbol(s, p, lit)
    case None => None
    case Some((sym, p1)) =>
      if sym < 256 then BlockAt(s, p1, lit, dist, out + [sym])
      else if sym == 256 then Some((out, p1))
      else if sym > 285 then None
      else match MatchAt(s, p1, sym, dist)
        case None => None
        case Some((length, distance, p2)) =>
          if distance > |out| then None
          else BlockAt(s, p2, lit, dist, Copy(out, distance, length))
  }

  method CopyMatch(out: Bytes, distance: nat, length: nat) returns (r: Bytes)
    requires 1 <= distance <= |out|
    ensures r == Copy(out, distance, length)
  {
    r := out;
    var start := |out| - distance;
    var k := 0;
    while k < length
      invariant k <= length && |r| == |out| + k
      invariant Copy(r, distance, length - k) == Copy(out, distance, length)
    {
      r := r + [r[start + k]];
      k := k + 1;
    }
  }

  method ReadMatch(reader: BitReader, sym: nat, dist: Huffman, ghost distLengths: Lengths)
    returns (r: Option<(nat, nat)>)
    requires reader.Valid() && Represents(dist, distLengths) && 257 <= sym <= 285
    modifies reader
    ensures var spec := MatchAt(reader.Input(), old(reader.Pos()), sym, distLengths);
            if spec == None then r == None
            else r == Some((spec.value.0, spec.value.1)) && reader.Valid() && reader.Pos() == spec.value.2
  {
    hide DecodeSymbol, Value, BitsOf, LengthBase, LengthExtra, DistBase, DistExtra, Represents;
    var idx := sym - 257;
    var extra := reader.TakeBits(LengthExtra(idx));
    if extra == None {
      return None;
    }
    var d := Decode(reader, dist, distLengths);
    if d == None || d.value >= 30 {
      return None;
    }
    var distExtra := reader.TakeBits(DistExtra(d.value));
    if distExtra == None {
      return None;
    }
    return Some((LengthBase(idx) + extra.value, DistBase(d.value) + distExtra.value));
  }

  method InflateBlock(reader: BitReader, lit: Huffman, dist: Huffman, before: Bytes, ghost litLengths: Lengths,
      ghost distLengths: Lengths)
    returns (r: Option<Bytes>)
    requires reader.Valid() && Represents(lit, litLengths) && Represents(dist, distLengths)
    modifies reader
    ensures var spec := BlockAt(reader.Input(), old(reader.Pos()), litLengths, distLengths, before);
            if spec == None then r == None
            else r == Some(spec.value.0) && reader.Valid() && reader.Pos() == spec.value.1
  {
    hide DecodeSymbol, BitsOf, Represents, MatchAt, Copy;
    var out := before;
    ghost var s, start := reader.Input(), reader.Pos();
    while true
      invariant reader.Valid() && reader.Pos() <= |s|
      invariant BlockAt(s, reader.Pos(), litLengths, distLengths, out)
                == BlockAt(s, start, litLengths, distLengths, before)
      decreases |s| - reader.Pos()
    {
      var sym := Decode(reader, lit, litLengths);
      if sym == None || sym.value > 285 {
        return None;
      }
      if sym.value < 256 {
        out := out + [sym.value];
      } else if sym.value == 256 {
        return Some(out);
      } else {
        var m := ReadMatch(reader, sym.value, dist, distLengths);
        if m == None {
          return None;
        }
        var (length, distance) := m.value;
        if distance > |out| {
          return None;
        }
        out := CopyMatch(out, distance, length);
      }
    }
  }

  // ---- dynamic tables (section 3.2.7) ----

  /** The three-bit lengths of the code length code, from the `k`-th of `n` on. */
  function ClLengthsAt(s: BitString, p: nat, k: nat, n: nat, cl: Lengths): (r: Option<(Lengths, nat)>)
    requires k <= n <= 19 == |cl|
    ensures r.Some? ==> |r.value.0| == 19 && p <= r.value.1 && (r.value.1 <= |s| || p == r.value.1)
    decreases n - k
  {
    if k == n then Some((cl, p))
    else match ReadBits(s, p, 3)
      case None => None
      case Some(v) => SmallPowers(); ClLengthsAt(s, p + 3, k + 1, n, cl[Order(k) := v])
  }

  /**
   The repeated length and the number of repetitions that a code length symbol above 15 stands for, and the position
   after it.
   */
  function RepeatAt(s: BitString, p: nat, sym: nat, acc: Lengths): (r: Option<(nat, nat, nat)>)
    requires sym > 15
    ensures r.Some? ==> p <= r.value.2 <= |s| && r.value.0 <= MAX_BITS
  {
    var bits := if sym == 16 then 2 else if sym == 17 then 3 else 7;
    var v := if sym == 16 && acc != [] then acc[|acc| - 1] else 0;
    if sym > 18 || ReadBits(s, p, bits) == None then None
    else Some((v, ReadBits(s, p, bits).value + (if sym == 18 then 11 else 3), p + bits))
  }

  /** The literal/length and distance code lengths, `total` in all, `acc` of them already read. */
  function CodeLengthsAt(s: BitString, p: nat, cl: Lengths, total: nat, acc: Lengths): (r: Option<(Lengths, nat)>)
    requires p <= |s|
    ensures r.Some? ==> |r.value.0| == total && p <= r.value.1 <= |s|
    decreases |s| - p
  {
    if |acc| == total then Some((acc, p))
    else if |acc| > total then None
    else match DecodeSymbol(s, p, cl)
      case None => None
      case Some((sym, p1)) =>
        if sym <= 15 then CodeLengthsAt(s, p1, cl, total, acc + [sym])
        else match RepeatAt(s, p1, sym, acc)
          case None => None
          case Some((v, n, p2)) => CodeLengthsAt(s, p2, cl, total, acc + Repeat(v, n))
  }

  /** A dynamic block's header: literal/length code lengths, distance code lengths, and the position after it. */
  function DynamicAt(s: BitString, p: nat): (r: Option<(Lengths, Lengths, nat)>)
    ensures r.Some? ==> p <= r.value.2 <= |s|
  {
    if p + 14 > |s| then None
    else
      var hlit := ReadBits(s, p, 5).value + 257;
      var hdist := ReadBits(s, p + 5, 5).value + 1;
      SmallPowers();
      var hclen := ReadBits(s, p + 10, 4).value + 4;
      match ClLengthsAt(s, p + 14, 0, hclen, Repeat(0, 19))
      case None => None
      case Some((cl, p1)) =>
        match CodeLengthsAt(s, p1, cl, hlit + hdist, [])
        case None => None
        case Some((lengths, p2)) => Some((lengths[..hlit], lengths[hlit..], p2))
  }

  lemma SmallPowers()
    ensures Pow2(3) == 8 && Pow2(4) == 16 && Pow2(5) == 32 && Pow2(7) == 128
  {
  }

  method ReadClLengths(reader: BitReader, hclen: nat) returns (r: Option<Lengths>)
    requires reader.Valid() && hclen <= 19 && reader.Pos() <= |reader.Input()|
    modifies reader
    ensures var spec := ClLengthsAt(reader.Input(), old(reader.Pos()), 0, hclen, Repeat(0, 19));
            if spec == None then r == None
            else r == Some(spec.value.0) && reader.Valid() && reader.Pos() == spec.value.1
  {
    hide Value, BitsOf, Pow2, Order;
    var cl: Lengths := Repeat(0, 19);
    ghost var s, start := reader.Input(), reader.Pos();
    var k := 0;
    while k < hclen
      invariant k <= hclen && |cl| == 19 && reader.Valid()
      invariant ClLengthsAt(s, reader.Pos(), k, hclen, cl) == ClLengthsAt(s, start, 0, hclen, Repeat(0, 19))
    {
      var v := reader.TakeBits(3);
      if v == None {
        return None;
      }
      SmallPowers();
      cl := cl[Order(k) := v.value];
      k := k + 1;
    }
    return Some(cl);
  }

  method ReadRepeat(reader: BitReader, sym: nat, prev: nat, ghost acc: Lengths) returns (r: Option<(nat, nat)>)
    requires reader.Valid() && sym > 15 && prev == if acc != [] then acc[|acc| - 1] else 0
    modifies reader
    ensures var spec := RepeatAt(reader.Input(), old(reader.Pos()), sym, acc);
            if spec == None then r == None
            else r == Some((spec.value.0, spec.value.1)) && reader.Valid() && reader.Pos() == spec.value.2
  {
    hide Value, BitsOf, Pow2;
    if sym > 18 {
      return None;
    }
    var bits := if sym == 16 then 2 else if sym == 17 then 3 else 7;
    var n := reader.TakeBits(bits);
    if n == None {
      return None;
    }
    return Some((if sym == 16 then prev else 0, n.value + (if sym == 18 then 11 else 3)));
  }

  method ReadCodeLengths(reader: BitReader, cl: Huffman, total: nat, ghost clLengths: Lengths)
    returns (r: Option<Lengths>)
    requires reader.Valid() && Represents(cl, clLengths) && reader.Pos() <= |reader.Input()|
    modifies reader
    ensures var spec := CodeLengthsAt(reader.Input(), old(reader.Pos()), clLengths, total, []);
            if spec == None then r == None
            else r == Some(spec.value.0) && reader.Valid() && reader.Pos() == spec.value.1
  {
    hide DecodeSymbol, BitsOf, Represents, RepeatAt;
    var lengths: Lengths := Repeat(0, total);
    ghost var s, start := reader.Input(), reader.Pos();
    var i := 0;
    while i < total
      invariant reader.Valid() && i <= total == |lengths| && reader.Pos() <= |s|
      invariant lengths[i..] == Repeat(0, total - i)
      invariant CodeLengthsAt(s, reader.Pos(), clLengths, total, lengths[..i])
                == CodeLengthsAt(s, start, clLengths, total, [])
      decreases |s| - reader.Pos()
    {
      ghost var acc: Lengths := lengths[..i];
      var sym := Decode(reader, cl, clLengths);
      if sym == None {
        return None;
      }
      if sym.value <= 15 {
        ghost var was := lengths;
        lengths := lengths[i := sym.value];
        i := i + 1;
        assert lengths[..i] == acc + [sym.value];
        assert lengths[i..] == was[i - 1..][1..];
      } else {
        var rep := ReadRepeat(reader, sym.value, if i == 0 then 0 else lengths[i - 1], acc);
        if rep == None {
          return None;
        }
        var (v, n) := rep.value;
        if i + n > total {
          TooLong(s, reader.Pos(), clLengths, total, acc + Repeat(v, n));
          return None;
        }
        lengths := Fill(lengths, i, n, v);
        i := i + n;
      }
    }
    assert lengths[..i] == lengths;
    return Some(lengths);
  }

  lemma TooLong(s: BitString, p: nat, cl: Lengths, total: nat, acc: Lengths)
    requires p <= |s| && |acc| > total
    ensures CodeLengthsAt(s, p, cl, total, acc) == None
  {
  }

  /** The repetition loops: symbols 17 and 18 skip over entries that are still zero. */
  method Fill(lengths: Lengths, i: nat, n: nat, v: nat) returns (r: Lengths)
    requires i + n <= |lengths| && v <= MAX_BITS && lengths[i..] == Repeat(0, |lengths| - i)
    ensures |r| == |lengths| && r[..i + n] == lengths[..i] + Repeat(v, n) && r[i + n..] == Repeat(0, |lengths| - i - n)
  {
    r := lengths;
    var k := 0;
    while k < n
      invariant k <= n && |r| == |lengths|
      invariant forall j :: 0 <= j < |r| ==> r[j] == if i <= j < i + k then v else lengths[j]
    {
      r := r[i + k := v];
      k := k + 1;
    }
    assert forall j :: i <= j < |lengths| ==> lengths[j] == lengths[i..][j - i] == 0;
  }

  method DynamicTables(reader: BitReader)
    returns (r: Option<(Huffman, Huffman)>, ghost lit: Lengths, ghost dist: Lengths)
    requires reader.Valid() && reader.Pos() <= |reader.Input()|
    modifies reader
    ensures var spec := DynamicAt(reader.Input(), old(reader.Pos()));
            if spec == None then r == None
            else r.Some? && (lit, dist) == (spec.value.0, spec.value.1)
                 && Represents(r.value.0, lit) && Represents(r.value.1, dist)
                 && reader.Valid() && reader.Pos() == spec.value.2
  {
    hide Value, BitsOf, Represents, ClLengthsAt, CodeLengthsAt, Pow2;
    lit, dist := [], [];
    ghost var s, start := reader.Input(), reader.Pos();
    var a := reader.TakeBits(5);
    if a == None { return None, [], []; }
    var b := reader.TakeBits(5);
    if b == None { return None, [], []; }
    var c := reader.TakeBits(4);
    if c == None { return None, [], []; }
    var hlit, hdist, hclen := a.value + 257, b.value + 1, c.value + 4;
    SmallPowers();
    var cl := ReadClLengths(reader, hclen);
    if cl == None { return None, [], []; }
    var clTable := Construct(cl.value);
    var lengths := ReadCodeLengths(reader, clTable, hlit + hdist, cl.value);
    if lengths == None { return None, [], []; }
    lit, dist := lengths.value[..hlit], lengths.value[hlit..];
    var litTable := Construct(lengths.value[..hlit]);
    var distTable := Construct(lengths.value[hlit..]);
    r := Some((litTable, distTable));
  }

  // ---- the stream ----

  /** A stored block's bytes and the position after them. */
  function StoredAt(s: BitString, p: nat): (r: Option<(Bytes, nat)>)
    ensures r.Some? ==> p <= r.value.1 <= |s|
  {
    var p1 := Align(p);
    if p1 + 32 > |s| then None
    else
      var len, nlen := Value(s[p1..p1 + 16]), Value(s[p1 + 16..p1 + 32]);
      if nlen != 65535 - len || p1 + 32 + 8 * len > |s| then None
      else Some((BytesAt(s, p1 + 32, len), p1 + 32 + 8 * len))
  }

  method ReadStored(reader: BitReader) returns (r: Option<Bytes>)
    requires reader.Valid() && reader.Pos() <= |reader.Input()|
    modifies reader
    ensures var spec := StoredAt(reader.Input(), old(reader.Pos()));
            if spec == None then r == None
            else r == Some(spec.value.0) && reader.Valid() && reader.Pos() == spec.value.1
  {
    hide Value, BitsOf;
    ghost var s := reader.Input();
    reader.AlignToByte();
    ghost var p1 := reader.Pos();
    var header := reader.ReadBytes(4);
    if header == None {
      return None;
    }
    var h := header.value;
    TwoBytes(s, p1, h);
    var len, nlen := h[0] as int + 256 * h[1] as int, h[2] as int + 256 * h[3] as int;
    if nlen != 65535 - len {
      return None;
    }
    r := reader.ReadBytes(len);
  }

  /** Two little-endian 16-bit numbers read as bytes are those numbers read as bit fields. */
  lemma TwoBytes(s: BitString, p: nat, h: Bytes)
    requires p + 32 <= |s| && h == BytesAt(s, p, 4)
    ensures Value(s[p..p + 16]) == h[0] as int + 256 * h[1] as int
    ensures Value(s[p + 16..p + 32]) == h[2] as int + 256 * h[3] as int
  {
    FourBytes(s, p);
    assert Pow2(8) == 256;
    hide Value, BytesAt, Pow2;
    assert s[p..p + 16] == s[p..p + 8] + s[p + 8..p + 16];
    assert s[p + 16..p + 32] == s[p + 16..p + 24] + s[p + 24..p + 32];
    ValueConcat(s[p..p + 8], s[p + 8..p + 16]);
    ValueConcat(s[p + 16..p + 24], s[p + 24..p + 32]);
  }

  lemma FourBytes(s: BitString, p: nat)
    requires p + 32 <= |s|
    ensures var h := BytesAt(s, p, 4);
            h[0] == Value(s[p..p + 8]) && h[1] == Value(s[p + 8..p + 16]) && h[2] == Value(s[p + 16..p + 24])
              && h[3] == Value(s[p + 24..p + 32])
  {
    hide Value;
    assert BytesAt(s, p, 4) == [BytesAt(s, p, 4)[0]] + BytesAt(s, p + 8, 3);
    assert BytesAt(s, p + 8, 3) == [BytesAt(s, p + 8, 3)[0]] + BytesAt(s, p + 16, 2);
    assert BytesAt(s, p + 16, 2) == [BytesAt(s, p + 16, 2)[0]] + BytesAt(s, p + 24, 1);
  }

  method FixedTables() returns (lit: Huffman, dist: Huffman)
    ensures Represents(lit, FixedLiteral()) && Represents(dist, FixedDistance())
  {
    lit := Construct(FixedLiteral());
    dist := Construct(FixedDistance());
  }

  /** One block after its three header bits. */
  function BlockOfType(s: BitString, p: nat, blockType: nat, out: Bytes): (r: Option<(Bytes, nat)>)
    ensures r.Some? ==> p <= r.value.1 <= |s|
  {
    if blockType == 0 then
      match StoredAt(s, p) { case None => None case Some((bytes, p1)) => Some((out + bytes, p1)) }
    else if blockType == 1 then BlockAt(s, p, FixedLiteral(), FixedDistance(), out)
    else if blockType == 2 then
      match DynamicAt(s, p) { case None => None case Some((lit, dist, p1)) => BlockAt(s, p1, lit, dist, out) }
    else None
  }

  method ReadBlock(reader: BitReader, blockType: nat, before: Bytes) returns (r: Option<Bytes>)
    requires reader.Valid() && reader.Pos() <= |reader.Input()|
    modifies reader
    ensures var spec := BlockOfType(reader.Input(), old(reader.Pos()), blockType, before);
            if spec == None then r == None
            else r == Some(spec.value.0) && reader.Valid() && reader.Pos() == spec.value.1
  {
    hide BitsOf, Represents, StoredAt, DynamicAt, BlockAt, FixedLiteral, FixedDistance;
    if blockType == 0 {
      var bytes := ReadStored(reader);
      r := if bytes == None then None else Some(before + bytes.value);
    } else if blockType == 1 {
      var lit, dist := FixedTables();
      r := InflateBlock(reader, lit, dist, before, FixedLiteral(), FixedDistance());
    } else if blockType == 2 {
      var tables;
      ghost var lit, dist;
      tables, lit, dist := DynamicTables(reader);
      if tables == None {
        return None;
      }
      r := InflateBlock(reader, tables.value.0, tables.value.1, before, lit, dist);
    } else {
      r := None;
    }
  }

  function StreamAt(s: BitString, p: nat, out: Bytes): Option<Bytes>
    decreases |s| - p
  {
    if p + 3 > |s| then None
    else
      match BlockOfType(s, p + 3, ReadBits(s, p + 1, 2).value, out)
      case None => None
      case Some((out1, p1)) => if ReadBits(s, p, 1).value == 1 then Some(out1) else StreamAt(s, p1, out1)
  }

  /**
   `inflate`: ends on every input, with the unread bits as its measure, and computes what the bit-string parser accepts.
   */
  method Inflate(data: Bytes) returns (r: Option<Bytes>)
    ensures r == StreamAt(BitsOf(data), 0, [])
  {
    hide BitsOf, BlockOfType, Value;
    var reader := new BitReader(data);
    var out: Bytes := [];
    ghost var s := reader.Input();
    while true
      invariant fresh(reader) && reader.Valid() && reader.Pos() <= |s| && reader.Input() == s
      invariant StreamAt(s, reader.Pos(), out) == StreamAt(s, 0, [])
      decreases |s| - reader.Pos()
    {
      var isFinal := reader.TakeBits(1);
      if isFinal == None {
        return None;
      }
      var blockType := reader.TakeBits(2);
      if blockType == None {
        return None;
      }
      var after := ReadBlock(reader, blockType.value, out);
      if after == None {
        return None;
      }
      out := after.value;
      if isFinal.value == 1 {
        return Some(out);
      }
    }
  }
}
