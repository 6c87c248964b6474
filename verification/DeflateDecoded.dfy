/**
 The converse of the round trip: whatever `inflate` accepts is an encoding, in the grammar of the encoder, of blocks
 whose expansion is the result. Nothing is asked of the Huffman tables.
 */
module DeflateDecoded {
  import opened Common
  import opened Bits
  import opened BitReaders
  import opened HuffmanCode
  import opened Deflate
  import opened DeflateRoundTrip

  // ---- fields and symbols ----

  lemma {:induction false} LsbOfValue(s: BitString)
    ensures LsbBits(Value(s), |s|) == s
  {
    if s != [] {
      LsbOfValue(s[1..]);
      assert Value(s) % 2 == s[0] && Value(s) / 2 == Value(s[1..]);
    }
  }

  /** A field that has been read stands there. */
  lemma FieldStands(s: BitString, p: nat, n: nat)
    requires ReadBits(s, p, n).Some?
    ensures At(s, p, LsbBits(ReadBits(s, p, n).value, n)) && ReadBits(s, p, n).value < Pow2(n)
  {
    hide Value, LsbBits, Pow2;
    LsbOfValue(s[p..p + n]);
  }

  lemma Readable(s: BitString, p: nat, n: nat)
    requires p + n <= |s|
    ensures ReadBits(s, p, n).Some?
  {
  }

  /** So does the code of a symbol that has been decoded. */
  lemma SymbolStands(s: BitString, p: nat, ls: Lengths)
    requires DecodeSymbol(s, p, ls).Some?
    ensures var (sym, q) := DecodeSymbol(s, p, ls).value;
            Used(ls, sym) && q == p + ls[sym] && At(s, p, CodeBits(ls, sym))
  {
    assert FirstCode(ls, 1) == 0;
    assert s[p..p] == MsbBits(0, 0);
    hide FirstCode, MsbBits, CodeBits, Count, DecodeFrom;
    DecodedFrom(s, p, ls, 1, 0, 0, p);
  }

  lemma AtJoin(s: BitString, p: nat, a: BitString, b: BitString)
    requires At(s, p, a) && At(s, p + |a|, b)
    ensures At(s, p, a + b)
  {
    assert s[p..p + |a + b|] == s[p..p + |a|] + s[p + |a|..p + |a| + |b|];
  }

  // ---- lengths and distances ----

  lemma {:induction false} LengthBaseGrows(j: nat, k: nat)
    requires j <= k < 29
    ensures LengthBase(j) <= LengthBase(k)
  {
    if j < k {
      LengthBaseGrows(j, k - 1);
      hide LengthBase;
      LengthSteps(k - 1);
    }
  }

  lemma LengthSteps(k: nat)
    requires k < 28
    ensures LengthBase(k) < LengthBase(k + 1)
    ensures k < 27 ==> LengthBase(k + 1) == LengthBase(k) + Pow2(LengthExtra(k))
    ensures k == 27 ==> LengthBase(k + 1) == LengthBase(k) + Pow2(LengthExtra(k)) - 1
  {
    hide Pow2;
    PowersTo(LengthExtra(k));
  }

  /** The entry a length was read with is the one it is written with, or the stretched one. */
  lemma LengthWritten(k: nat, extra: nat)
    requires k < 29 && extra < Pow2(LengthExtra(k))
    ensures var length := LengthBase(k) + extra; var stretched := k == 27 && extra == 31;
            3 <= length <= 258 && (stretched ==> length == 258) && LengthCode(length, stretched) == k
  {
    hide LengthBase, LengthExtra, LengthIndex, Pow2;
    var length := LengthBase(k) + extra;
    LengthTable(k);
    LengthBaseGrows(0, k);
    LengthBaseGrows(k, 28);
    LengthEnds();
    if k < 28 {
      LengthSteps(k);
      LengthBaseGrows(k + 1, 28);
    }
    if !(k == 27 && extra == 31) {
      var r := LengthIndex(length, 28);
      if r < k {
        LengthBaseGrows(r + 1, k);
      } else if k < r {
        LengthBaseGrows(k + 1, r);
      }
    }
  }

  lemma LengthEnds()
    ensures LengthBase(0) == 3 && LengthBase(28) == 258
  {
  }

  lemma {:induction false} DistBaseGrows(j: nat, k: nat)
    requires j <= k < 30
    ensures DistBase(j) <= DistBase(k)
  {
    if j < k {
      DistBaseGrows(j, k - 1);
      hide DistBase, Pow2;
      DistTable(k - 1);
    }
  }

  lemma DistWritten(d: nat, extra: nat)
    requires d < 30 && extra < Pow2(DistExtra(d))
    ensures var distance := DistBase(d) + extra; 1 <= distance <= 32768 && DistIndex(distance, 29) == d
  {
    hide DistBase, DistExtra, DistIndex, Pow2;
    var distance := DistBase(d) + extra;
    DistTable(d);
    DistTable(29);
    if d < 29 {
      DistBaseGrows(d + 1, 29);
    }
    var r := DistIndex(distance, 29);
    if r < d {
      DistBaseGrows(r + 1, d);
    } else if d < r {
      DistBaseGrows(d + 1, r);
    }
  }

  /** A match that has been read stands there. */
  lemma MatchStands(s: BitString, p: nat, sym: nat, dist: Lengths) returns (stretched: bool)
    requires 257 <= sym <= 285 && MatchAt(s, p, sym, dist).Some?
    ensures var (length, distance, q) := MatchAt(s, p, sym, dist).value;
            && InFormat(length, distance, stretched) && LengthSymbol(length, stretched) == sym
            && Used(dist, DistIndex(distance, 29))
            && At(s, p, MatchTail(length, distance, stretched, dist))
            && q == p + |MatchTail(length, distance, stretched, dist)|
  {
    hide LengthCode, DistIndex, LengthBase, LengthExtra, DistBase, DistExtra, CodeBits, At, DecodeSymbol, ReadBits;
    hide Pow2, LsbBits;
    var k := sym - 257;
    var extra := ReadBits(s, p, LengthExtra(k)).value;
    var p1 := p + LengthExtra(k);
    var (d, p2) := DecodeSymbol(s, p1, dist).value;
    var distExtra := ReadBits(s, p2, DistExtra(d)).value;
    FieldStands(s, p, LengthExtra(k));
    SymbolStands(s, p1, dist);
    FieldStands(s, p2, DistExtra(d));
    LengthWritten(k, extra);
    DistWritten(d, distExtra);
    stretched := k == 27 && extra == 31;
    AtJoin(s, p1, CodeBits(dist, d), LsbBits(distExtra, DistExtra(d)));
    AtJoin(s, p, LsbBits(extra, LengthExtra(k)), CodeBits(dist, d) + LsbBits(distExtra, DistExtra(d)));
  }

  // ---- compressed blocks ----

  /** The tokens a list of symbols stands for. */
  lemma {:induction false} TokensStand(s: BitString, p: nat, lit: Lengths, dist: Lengths, out: Bytes)
    returns (tokens: seq<Token>)
    requires BlockAt(s, p, lit, dist, out).Some?
    ensures AllEncodable(tokens, lit, dist) && InRange(tokens, |out|) && At(s, p, TokensBits(tokens, lit, dist))
    ensures BlockAt(s, p, lit, dist, out) == Some((Expand(tokens, out), p + |TokensBits(tokens, lit, dist)|))
    decreases |s| - p
  {
    hide At, DecodeSymbol, MatchAt, CodeBits, TokenBits, MatchTail, LengthCode, DistIndex, Copy, InFormat;
    SymbolStands(s, p, lit);
    var (sym, p1) := DecodeSymbol(s, p, lit).value;
    if sym == 256 {
      return [];
    }
    var token, next;
    if sym < 256 {
      token, next := Literal(sym), out + [sym];
      LiteralBits(lit, dist, sym);
    } else {
      var stretched := MatchStands(s, p1, sym, dist);
      var (length, distance, p2) := MatchAt(s, p1, sym, dist).value;
      token, next := Match(length, distance, stretched), Copy(out, distance, length);
      MatchBits(s, p, lit, dist, length, distance, stretched);
    }
    var rest := TokensStand(s, p + |TokenBits(token, lit, dist)|, lit, dist, next);
    tokens := [token] + rest;
    InFormatOf(token, lit, dist);
    RangeOneMore(token, rest, |out|);
    BitsOneMore(token, rest, lit, dist);
    ExpandOneMore(token, rest, out);
    AtJoin(s, p, TokenBits(token, lit, dist), TokensBits(rest, lit, dist));
  }

  lemma LiteralBits(lit: Lengths, dist: Lengths, sym: nat)
    requires sym < 256 && Used(lit, sym)
    ensures Encodable(Literal(sym), lit, dist) && TokenBits(Literal(sym), lit, dist) == CodeBits(lit, sym)
  {
  }

  lemma MatchBits(s: BitString, p: nat, lit: Lengths, dist: Lengths, length: nat, distance: nat, stretched: bool)
    requires InFormat(length, distance, stretched)
    requires Used(lit, LengthSymbol(length, stretched)) && Used(dist, DistIndex(distance, 29))
    requires var sym := LengthSymbol(length, stretched);
             At(s, p, CodeBits(lit, sym)) && At(s, p + lit[sym], MatchTail(length, distance, stretched, dist))
    ensures var t := Match(length, distance, stretched);
            && Encodable(t, lit, dist) && At(s, p, TokenBits(t, lit, dist))
            && |TokenBits(t, lit, dist)|
               == lit[LengthSymbol(length, stretched)] + |MatchTail(length, distance, stretched, dist)|
  {
    hide At, CodeBits, MatchTail, LengthCode, DistIndex;
    AtJoin(s, p, CodeBits(lit, LengthSymbol(length, stretched)), MatchTail(length, distance, stretched, dist));
  }

  lemma InFormatOf(t: Token, lit: Lengths, dist: Lengths)
    requires Encodable(t, lit, dist)
    ensures t.Match? ==> InFormat(t.length, t.distance, t.stretched)
  {
    hide LengthCode, DistIndex;
  }

  lemma RangeOneMore(t: Token, rest: seq<Token>, n: nat)
    requires t.Literal? ==> InRange(rest, n + 1)
    requires t.Match? ==> InFormat(t.length, t.distance, t.stretched) && t.distance <= n && InRange(rest, n + t.length)
    ensures InRange([t] + rest, n)
  {
    hide InFormat;
    assert ([t] + rest)[1..] == rest;
  }

  lemma BitsOneMore(t: Token, rest: seq<Token>, lit: Lengths, dist: Lengths)
    requires Encodable(t, lit, dist) && AllEncodable(rest, lit, dist)
    ensures AllEncodable([t] + rest, lit, dist)
    ensures TokensBits([t] + rest, lit, dist) == TokenBits(t, lit, dist) + TokensBits(rest, lit, dist)
  {
    hide TokenBits, Encodable, CodeBits;
    assert ([t] + rest)[1..] == rest;
  }

  lemma ExpandOneMore(t: Token, rest: seq<Token>, out: Bytes)
    requires InRange([t] + rest, |out|)
    ensures t.Literal? ==> InRange(rest, |out| + 1) && Expand([t] + rest, out) == Expand(rest, out + [t.b])
    ensures t.Match? ==>
              && 1 <= t.distance <= |out| && InRange(rest, |out| + t.length)
              && Expand([t] + rest, out) == Expand(rest, Copy(out, t.distance, t.length))
  {
    hide Copy;
    assert ([t] + rest)[1..] == rest;
  }

  // ---- dynamic headers ----

  lemma {:induction false} ClLengthsStand(s: BitString, p: nat, k: nat, n: nat, acc: Lengths)
    requires k <= n <= 19 == |acc| && ClLengthsAt(s, p, k, n, acc).Some? && p <= |s|
    ensures var (cl, q) := ClLengthsAt(s, p, k, n, acc).value;
            && At(s, p, ClBits(cl, k, n)) && q == p + |ClBits(cl, k, n)|
            && forall i :: 0 <= i < 19 ==> if k <= Rank(i) < n then cl[i] < 8 else cl[i] == acc[i]
    decreases n - k
  {
    hide At, Order, Rank, Pow2, ReadBits, LsbBits;
    if k == n {
      NothingStands(s, p);
    } else {
      SmallPowers();
      FieldStands(s, p, 3);
      var next := acc[Order(k) := ReadBits(s, p, 3).value];
      ClLengthsStand(s, p + 3, k + 1, n, next);
      var (cl, q) := ClLengthsAt(s, p + 3, k + 1, n, next).value;
      forall i | 0 <= i < 19
        ensures Rank(i) == k <==> Order(k) == i
      {
        OrderRank(k, i);
      }
      AtJoin(s, p, LsbBits(cl[Order(k)], 3), ClBits(cl, k + 1, n));
    }
  }

  lemma NothingStands(s: BitString, p: nat)
    requires p <= |s|
    ensures At(s, p, [])
  {
  }

  /** The symbol that stands for a repetition. */
  lemma RepeatStands(s: BitString, p: nat, sym: nat, acc: Lengths) returns (op: ClOp)
    requires sym > 15 && RepeatAt(s, p, sym, acc).Some?
    ensures var (v, n, q) := RepeatAt(s, p, sym, acc).value;
            && !op.Single? && OpSymbol(op) == sym && op.times == n && q == p + OpExtra(op).0
            && InCode(op) && At(s, p, LsbBits(OpExtra(op).1, OpExtra(op).0)) && Apply(op, acc) == acc + Repeat(v, n)
  {
    hide At, Pow2, LsbBits, ReadBits, Repeat;
    SmallPowers();
    TwoSquared();
    var bits := if sym == 16 then 2 else if sym == 17 then 3 else 7;
    FieldStands(s, p, bits);
    var v := ReadBits(s, p, bits).value;
    op := if sym == 16 then Previous(v + 3) else if sym == 17 then ShortZeros(v + 3) else LongZeros(v + 11);
  }

  lemma {:induction false} OpsStand(s: BitString, p: nat, cl: Lengths, total: nat, acc: Lengths)
    returns (ops: seq<ClOp>)
    requires p <= |s| && CodeLengthsAt(s, p, cl, total, acc).Some?
    ensures OpsOk(ops, cl) && At(s, p, OpsBits(ops, cl))
    ensures CodeLengthsAt(s, p, cl, total, acc) == Some((ApplyAll(ops, cl, acc), p + |OpsBits(ops, cl)|))
    decreases |s| - p
  {
    hide At, DecodeSymbol, CodeBits, LsbBits, RepeatAt, Repeat, ReadBits;
    if |acc| == total {
      ops := [];
      NothingStands(s, p);
    } else {
      SymbolStands(s, p, cl);
      var (sym, p1) := DecodeSymbol(s, p, cl).value;
      var op;
      if sym <= 15 {
        op := Single(sym);
        SingleBits(s, p, cl, sym);
      } else {
        op := RepeatStands(s, p1, sym, acc);
        RepeatBits(s, p, cl, op);
      }
      var rest := OpsStand(s, p + |OpBits(op, cl)|, cl, total, Apply(op, acc));
      ops := [op] + rest;
      OneMoreOp(op, rest, cl, acc);
      AtJoin(s, p, OpBits(op, cl), OpsBits(rest, cl));
    }
  }

  lemma SingleBits(s: BitString, p: nat, cl: Lengths, sym: nat)
    requires sym <= 15 && Used(cl, sym) && At(s, p, CodeBits(cl, sym))
    ensures var op := Single(sym); OpOk(op, cl) && At(s, p, OpBits(op, cl)) && |OpBits(op, cl)| == cl[sym]
  {
    assert OpBits(Single(sym), cl) == CodeBits(cl, sym) + LsbBits(0, 0);
    assert LsbBits(0, 0) == [];
    hide CodeBits, At;
    assert CodeBits(cl, sym) + [] == CodeBits(cl, sym);
  }

  lemma RepeatBits(s: BitString, p: nat, cl: Lengths, op: ClOp)
    requires OpOk(op, cl) && At(s, p, CodeBits(cl, OpSymbol(op)))
    requires At(s, p + cl[OpSymbol(op)], LsbBits(OpExtra(op).1, OpExtra(op).0))
    ensures At(s, p, OpBits(op, cl)) && |OpBits(op, cl)| == cl[OpSymbol(op)] + OpExtra(op).0
  {
    hide CodeBits, At, LsbBits;
    AtJoin(s, p, CodeBits(cl, OpSymbol(op)), LsbBits(OpExtra(op).1, OpExtra(op).0));
  }

  lemma OneMoreOp(op: ClOp, rest: seq<ClOp>, cl: Lengths, acc: Lengths)
    requires OpOk(op, cl) && OpsOk(rest, cl)
    ensures OpsOk([op] + rest, cl) && OpsBits([op] + rest, cl) == OpBits(op, cl) + OpsBits(rest, cl)
    ensures ApplyAll([op] + rest, cl, acc) == ApplyAll(rest, cl, Apply(op, acc))
  {
    hide OpOk, OpBits, Apply;
    assert ([op] + rest)[1..] == rest;
  }

  /** The header that gave two tables. */
  lemma HeaderStands(s: BitString, p: nat) returns (h: Header)
    requires DynamicAt(s, p).Some?
    ensures HeaderOk(h) && At(s, p, HeaderBits(h))
    ensures DynamicAt(s, p) == Some((h.lit, h.dist, p + |HeaderBits(h)|))
  {
    hide At, ClLengthsAt, CodeLengthsAt, ClBits, OpsBits, ApplyAll, Rank, ReadBits, Pow2, OpsOk, LsbBits, Repeat;
    SmallPowers();
    Readable(s, p, 5);
    Readable(s, p + 5, 5);
    Readable(s, p + 10, 4);
    FieldStands(s, p, 5);
    FieldStands(s, p + 5, 5);
    FieldStands(s, p + 10, 4);
    var hlit, hdist := ReadBits(s, p, 5).value + 257, ReadBits(s, p + 5, 5).value + 1;
    var hclen := ReadBits(s, p + 10, 4).value + 4;
    ClLengthsStand(s, p + 14, 0, hclen, Repeat(0, 19));
    var (cl, p1) := ClLengthsAt(s, p + 14, 0, hclen, Repeat(0, 19)).value;
    var ops := OpsStand(s, p1, cl, hlit + hdist, []);
    var lengths := CodeLengthsAt(s, p1, cl, hlit + hdist, []).value.0;
    h := Header(lengths[..hlit], lengths[hlit..], cl, hclen, ops);
    assert lengths[..hlit] + lengths[hlit..] == lengths;
    HeaderIsFormed(h);
    AtJoin(s, p + 14, ClBits(cl, 0, hclen), OpsBits(ops, cl));
    AtJoin(s, p + 10, LsbBits(hclen - 4, 4), ClBits(cl, 0, hclen) + OpsBits(ops, cl));
    AtJoin(s, p + 5, LsbBits(hdist - 1, 5), LsbBits(hclen - 4, 4) + (ClBits(cl, 0, hclen) + OpsBits(ops, cl)));
    AtJoin(s, p, LsbBits(hlit - 257, 5),
           LsbBits(hdist - 1, 5) + (LsbBits(hclen - 4, 4) + (ClBits(cl, 0, hclen) + OpsBits(ops, cl))));
  }

  lemma HeaderIsFormed(h: Header)
    requires 257 <= |h.lit| <= 288 && 1 <= |h.dist| <= 32 && 4 <= h.hclen <= 19 && |h.cl| == 19 && OpsOk(h.ops, h.cl)
    requires forall i :: 0 <= i < 19 ==> if Rank(i) < h.hclen then h.cl[i] < 8 else h.cl[i] == 0
    requires ApplyAll(h.ops, h.cl, []) == h.lit + h.dist
    ensures HeaderOk(h)
  {
    hide OpsOk, ApplyAll, Rank;
  }

  // ---- stored blocks ----

  lemma {:induction false} BytesStand(s: BitString, p: nat, n: nat)
    requires p + 8 * n <= |s|
    ensures At(s, p, BitsOf(BytesAt(s, p, n)))
    decreases n
  {
    if n == 0 {
      NothingStands(s, p);
    } else {
      BytesStand(s, p + 8, n - 1);
      LsbOfValue(s[p..p + 8]);
      ByteValue(s[p..p + 8]);
      hide BitsOf, LsbBits, Value, At;
      FirstByte(s, p, n);
      OneByteStands(s, p);
      AtJoin(s, p, LsbBits(Value(s[p..p + 8]), 8), BitsOf(BytesAt(s, p + 8, n - 1)));
    }
  }

  lemma ByteValue(bits: BitString)
    requires |bits| == 8
    ensures Value(bits) < 256
  {
    assert Pow2(8) == 256;
  }

  lemma FirstByte(s: BitString, p: nat, n: nat)
    requires n > 0 && p + 8 * n <= |s|
    ensures BitsOf(BytesAt(s, p, n)) == LsbBits(Value(s[p..p + 8]), 8) + BitsOf(BytesAt(s, p + 8, n - 1))
  {
    ByteValue(s[p..p + 8]);
    hide LsbBits, Value;
    assert BytesAt(s, p, n)[1..] == BytesAt(s, p + 8, n - 1);
  }

  lemma OneByteStands(s: BitString, p: nat)
    requires p + 8 <= |s|
    ensures At(s, p, LsbBits(Value(s[p..p + 8]), 8))
  {
    LsbOfValue(s[p..p + 8]);
  }

  lemma StoredStands(s: BitString, p: nat) returns (b: Block)
    requires StoredAt(s, p).Some?
    ensures b.Stored? && BlockOk(b, p, 0) && At(s, p, BodyBits(b, p, 0))
    ensures StoredAt(s, p) == Some((b.bytes, p + |BodyBits(b, p, 0)|))
  {
    hide Value, BytesAt, BitsOf, LsbBits, Pow2, ReadBits;
    Pow2Of24();
    var p1 := Align(p);
    var pad, bytes := s[p..p1], StoredAt(s, p).value.0;
    b := Stored(pad, bytes);
    var len := |bytes|;
    FieldValue(s, p1, 16);
    FieldValue(s, p1 + 16, 16);
    FieldStands(s, p1, 16);
    FieldStands(s, p1 + 16, 16);
    BytesStand(s, p1 + 32, len);
    PadStands(s, p, p1);
    hide At;
    AtJoin(s, p1 + 16, LsbBits(65535 - len, 16), BitsOf(bytes));
    AtJoin(s, p1, LsbBits(len, 16), LsbBits(65535 - len, 16) + BitsOf(bytes));
    AtJoin(s, p, pad, LsbBits(len, 16) + (LsbBits(65535 - len, 16) + BitsOf(bytes)));
  }

  lemma PadStands(s: BitString, p: nat, q: nat)
    requires p <= q <= |s|
    ensures At(s, p, s[p..q]) && |s[p..q]| == q - p
  {
  }

  // ---- whole streams ----

  lemma BlockStands(s: BitString, p: nat, blockType: nat, out: Bytes) returns (b: Block)
    requires BlockOfType(s, p, blockType, out).Some?
    ensures BlockType(b) == blockType && BlockOk(b, p, |out|) && At(s, p, BodyBits(b, p, |out|))
    ensures BlockOfType(s, p, blockType, out) == Some((ExpandBlock(b, p, out), p + |BodyBits(b, p, |out|)|))
  {
    hide At, TokensBits, BlockAt, StoredAt, DynamicAt, HeaderBits, HeaderOk, FixedLiteral, FixedDistance, AllEncodable;
    hide InRange, Expand, BitsOf, LsbBits;
    if blockType == 0 {
      b := StoredStands(s, p);
    } else if blockType == 1 {
      var tokens := TokensStand(s, p, FixedLiteral(), FixedDistance(), out);
      b := Fixed(tokens);
    } else {
      var h := HeaderStands(s, p);
      HeaderHasForm(h);
      var tokens := TokensStand(s, p + |HeaderBits(h)|, h.lit, h.dist, out);
      b := Dynamic(h, tokens);
      AtJoin(s, p, HeaderBits(h), TokensBits(tokens, h.lit, h.dist));
    }
  }

  lemma HeaderHasForm(h: Header)
    requires HeaderOk(h)
    ensures HeaderForm(h)
  {
  }

  lemma HeadStands(s: BitString, p: nat, b: Block, last: bool)
    requires p + 3 <= |s| && ReadBits(s, p, 1) == Some(if last then 1 else 0)
    requires ReadBits(s, p + 1, 2) == Some(BlockType(b))
    ensures At(s, p, HeadBits(b, last)) && |HeadBits(b, last)| == 3
  {
    hide At, ReadBits, Pow2, LsbBits;
    FieldStands(s, p, 1);
    FieldStands(s, p + 1, 2);
    OneBit(if last then 1 else 0);
    AtJoin(s, p, [if last then 1 else 0], LsbBits(BlockType(b), 2));
  }

  lemma OneBit(b: bit)
    ensures LsbBits(b, 1) == [b]
  {
    assert LsbBits(b / 2, 0) == [];
  }

  /** Every accepted stream is the encoding of some list of blocks, and its result their expansion. */
  lemma {:induction false} StreamStands(s: BitString, p: nat, out: Bytes) returns (blocks: seq<Block>)
    requires StreamAt(s, p, out).Some?
    ensures var e := Encode(blocks, p, out);
            e.Some? && At(s, p, e.value.0) && StreamAt(s, p, out) == Some(e.value.1)
    decreases |s| - p
  {
    hide At, BlockOk, BodyBits, ExpandBlock, HeadBits, BlockOfType, ReadBits;
    TwoWays(s, p);
    var last := ReadBits(s, p, 1).value == 1;
    var b := BlockStands(s, p + 3, ReadBits(s, p + 1, 2).value, out);
    HeadStands(s, p, b, last);
    var body, next := BodyBits(b, p + 3, |out|), ExpandBlock(b, p + 3, out);
    AtJoinInside(s, p + 3, body);
    if last {
      blocks := [b];
      AtJoin(s, p, HeadBits(b, true), body);
    } else {
      var rest := StreamStands(s, p + 3 + |body|, next);
      blocks := [b] + rest;
      assert blocks[1..] == rest && |rest| > 0;
      var bits := Encode(rest, p + 3 + |body|, next).value.0;
      AtJoin(s, p + 3, body, bits);
      AtJoin(s, p, HeadBits(b, false), body + bits);
    }
  }

  lemma TwoWays(s: BitString, p: nat)
    requires p + 3 <= |s|
    ensures ReadBits(s, p, 1).Some? && ReadBits(s, p, 1).value < 2 && ReadBits(s, p + 1, 2).Some?
  {
    assert Pow2(1) == 2;
  }

  lemma AtJoinInside(s: BitString, p: nat, bs: BitString)
    requires At(s, p, bs)
    ensures p + |bs| <= |s|
  {
  }

  /** The bits of `data` begin with the encoding of `blocks`, which expand to `out`. */
  ghost predicate Encodes(data: Bytes, blocks: seq<Block>, out: Bytes) {
    var e := Encode(blocks, 0, []);
    e.Some? && At(BitsOf(data), 0, e.value.0) && e.value.1 == out
  }

  /**
   Accepting and encoding are the same: `inflate` gives `out` only on encodings of blocks that expand to it, and on all
   of those whose tables are not over-subscribed.
   */
  lemma InflateExactly(data: Bytes, out: Bytes)
    ensures StreamAt(BitsOf(data), 0, []) == Some(out) ==> exists blocks :: Encodes(data, blocks, out)
    ensures (exists blocks :: Encodes(data, blocks, out) && AllGood(blocks)) ==>
              StreamAt(BitsOf(data), 0, []) == Some(out)
  {
    hide Encode, StreamAt, BitsOf, At, AllGood;
    if StreamAt(BitsOf(data), 0, []) == Some(out) {
      var blocks := StreamStands(BitsOf(data), 0, []);
      assert Encodes(data, blocks, out);
    }
    if blocks :| Encodes(data, blocks, out) && AllGood(blocks) {
      StreamRoundTrip(BitsOf(data), 0, blocks, []);
    }
  }
}
