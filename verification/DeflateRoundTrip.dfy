/**
 A DEFLATE encoder written from RFC 1951, with every choice the format leaves open as data: what it writes,
 `inflate` turns back into the LZ77 expansion of the tokens.
 */
module DeflateRoundTrip {
  import opened Common
  import opened Bits
  import opened BitReaders
  import opened HuffmanCode
  import opened Deflate

  /** `stretched` says that a length of 258 is written as 227 plus 31, which `inflate` takes, and not as 258 plus 0. */
  datatype Token = Literal(b: byte) | Match(length: nat, distance: nat, stretched: bool)

  type CodeLength = n: nat | n <= MAX_BITS

  /** Code length symbols of a dynamic header: one length, the previous one 3 to 6 times, or a run of zeros. */
  datatype ClOp = Single(len: CodeLength) | Previous(times: nat) | ShortZeros(times: nat) | LongZeros(times: nat)

  datatype Header = Header(lit: Lengths, dist: Lengths, cl: Lengths, hclen: nat, ops: seq<ClOp>)

  datatype Block =
    | Stored(pad: BitString, bytes: Bytes)
    | Fixed(tokens: seq<Token>)
    | Dynamic(header: Header, tokens: seq<Token>)

  // ---- meaning ----

  function Expand(tokens: seq<Token>, out: Bytes): Bytes
    requires InRange(tokens, |out|)
    decreases |tokens|
  {
    if tokens == [] then out
    else match tokens[0]
      case Literal(b) => Expand(tokens[1..], out + [b])
      case Match(length, distance, _) => Expand(tokens[1..], Copy(out, distance, length))
  }

  predicate InFormat(length: nat, distance: nat, stretched: bool) {
    3 <= length <= 258 && 1 <= distance <= 32768 && (stretched ==> length == 258)
  }

  /** Lengths and distances are those DEFLATE has, and no match reaches back before the start of the output. */
  predicate InRange(tokens: seq<Token>, n: nat)
    decreases |tokens|
  {
    tokens == [] ||
    match tokens[0]
    case Literal(_) => InRange(tokens[1..], n + 1)
    case Match(length, distance, stretched) =>
      InFormat(length, distance, stretched) && distance <= n && InRange(tokens[1..], n + length)
  }

  // ---- length and distance symbols (section 3.2.5) ----

  /** The last table entry, at or below `i`, whose base does not exceed the length. */
  function LengthIndex(length: nat, i: nat): (k: nat)
    requires 3 <= length && i < 29
    ensures k <= i && LengthBase(k) <= length && (k < i ==> length < LengthBase(k + 1))
  {
    if LengthBase(i) <= length || i == 0 then i else LengthIndex(length, i - 1)
  }

  function DistIndex(distance: nat, i: nat): (k: nat)
    requires 1 <= distance && i < 30
    ensures k <= i && DistBase(k) <= distance && (k < i ==> distance < DistBase(k + 1))
  {
    if DistBase(i) <= distance || i == 0 then i else DistIndex(distance, i - 1)
  }

  /** The extra bits reach from each base to the next. */
  lemma LengthExtraFits(length: nat, stretched: bool)
    requires 3 <= length <= 258 && (stretched ==> length == 258)
    ensures var k := LengthCode(length, stretched); length - LengthBase(k) < Pow2(LengthExtra(k))
  {
    var k := LengthCode(length, stretched);
    hide LengthIndex;
    LengthTable(k);
  }

  /** The table entry a length is written with. */
  function LengthCode(length: nat, stretched: bool): (k: nat)
    requires 3 <= length && (stretched ==> length == 258)
    ensures k < 29 && LengthBase(k) <= length
  {
    if stretched then 27 else LengthIndex(length, 28)
  }

  lemma LengthTable(k: nat)
    requires k < 29
    ensures k < 28 ==> LengthBase(k + 1) <= LengthBase(k) + Pow2(LengthExtra(k))
    ensures k == 28 ==> LengthBase(k) == 258 && Pow2(LengthExtra(k)) == 1
    ensures k == 27 ==> LengthBase(k) == 227 && Pow2(LengthExtra(k)) == 32
  {
    PowersTo(LengthExtra(k));
  }

  lemma DistExtraFits(distance: nat)
    requires 1 <= distance <= 32768
    ensures var k := DistIndex(distance, 29); distance - DistBase(k) < Pow2(DistExtra(k))
  {
    var k := DistIndex(distance, 29);
    hide DistIndex;
    DistTable(k);
  }

  lemma DistTable(k: nat)
    requires k < 30
    ensures k < 29 ==> DistBase(k + 1) == DistBase(k) + Pow2(DistExtra(k))
    ensures k == 29 ==> DistBase(k) + Pow2(DistExtra(k)) == 32769
  {
    PowersTo(DistExtra(k));
    hide Pow2, DistBase, DistExtra;
    if k < 15 {
      DistTableLow(k);
    } else {
      DistTableHigh(k);
    }
  }

  lemma DistTableLow(k: nat)
    requires k < 15
    ensures DistBase(k + 1) == DistBase(k)
            + [1, 2, 4, 8, 16, 32, 64, 128, 256, 512, 1024, 2048, 4096, 8192][DistExtra(k)]
  {
  }

  lemma DistTableHigh(k: nat)
    requires 15 <= k < 30
    ensures (if k == 29 then 32769 else DistBase(k + 1))
         == DistBase(k) + [1, 2, 4, 8, 16, 32, 64, 128, 256, 512, 1024, 2048, 4096, 8192][DistExtra(k)]
  {
  }

  /** The powers of two the tables use. */
  lemma PowersTo(n: nat)
    requires n <= 13
    ensures Pow2(n) == [1, 2, 4, 8, 16, 32, 64, 128, 256, 512, 1024, 2048, 4096, 8192][n]
  {
  }

  // ---- encoding of a symbol stream ----

  function LengthSymbol(length: nat, stretched: bool): nat
    requires 3 <= length && (stretched ==> length == 258)
  {
    257 + LengthCode(length, stretched)
  }

  predicate Encodable(t: Token, lit: Lengths, dist: Lengths)
  {
    match t
    case Literal(b) => Used(lit, b)
    case Match(length, distance, stretched) =>
      && InFormat(length, distance, stretched)
      && Used(lit, LengthSymbol(length, stretched)) && Used(dist, DistIndex(distance, 29))
  }

  predicate AllEncodable(tokens: seq<Token>, lit: Lengths, dist: Lengths)
  {
    Used(lit, 256) && forall i :: 0 <= i < |tokens| ==> Encodable(tokens[i], lit, dist)
  }

  /** What follows a length symbol: its extra bits, the distance code, its extra bits. */
  function MatchTail(length: nat, distance: nat, stretched: bool, dist: Lengths): BitString
    requires InFormat(length, distance, stretched) && Used(dist, DistIndex(distance, 29))
  {
    var k, d := LengthCode(length, stretched), DistIndex(distance, 29);
    LsbBits(length - LengthBase(k), LengthExtra(k))
      + (CodeBits(dist, d) + LsbBits(distance - DistBase(d), DistExtra(d)))
  }

  function TokenBits(t: Token, lit: Lengths, dist: Lengths): BitString
    requires Encodable(t, lit, dist)
  {
    match t
    case Literal(b) => CodeBits(lit, b)
    case Match(length, distance, stretched) =>
      CodeBits(lit, LengthSymbol(length, stretched)) + MatchTail(length, distance, stretched, dist)
  }

  function TokensBits(tokens: seq<Token>, lit: Lengths, dist: Lengths): BitString
    requires AllEncodable(tokens, lit, dist)
  {
    if tokens == [] then CodeBits(lit, 256)
    else TokenBits(tokens[0], lit, dist) + TokensBits(tokens[1..], lit, dist)
  }

  predicate GoodTables(lit: Lengths, dist: Lengths) { NotOversubscribed(lit) && NotOversubscribed(dist) }

  lemma MatchRoundTrip(s: BitString, p: nat, length: nat, distance: nat, stretched: bool, dist: Lengths)
    requires InFormat(length, distance, stretched) && Used(dist, DistIndex(distance, 29)) && NotOversubscribed(dist)
    requires At(s, p, MatchTail(length, distance, stretched, dist))
    ensures MatchAt(s, p, LengthSymbol(length, stretched), dist)
            == Some((length, distance, p + |MatchTail(length, distance, stretched, dist)|))
  {
    hide LengthCode, DistIndex, LengthBase, LengthExtra, DistBase, DistExtra, CodeBits, At, DecodeSymbol, ReadBits;
    hide Pow2, NotOversubscribed;
    var k, d := LengthCode(length, stretched), DistIndex(distance, 29);
    var extra := LsbBits(length - LengthBase(k), LengthExtra(k));
    var distExtra := LsbBits(distance - DistBase(d), DistExtra(d));
    AtParts(s, p, extra, CodeBits(dist, d) + distExtra);
    AtParts(s, p + |extra|, CodeBits(dist, d), distExtra);
    LengthExtraFits(length, stretched);
    ReadField(s, p, length - LengthBase(k), LengthExtra(k));
    DecodeCode(s, p + |extra|, dist, d);
    DistExtraFits(distance);
    ReadField(s, p + |extra| + dist[d], distance - DistBase(d), DistExtra(d));
  }

  /** Decoding one token's bits. */
  lemma TokenStep(s: BitString, p: nat, t: Token, lit: Lengths, dist: Lengths, out: Bytes)
    requires GoodTables(lit, dist) && Encodable(t, lit, dist) && InRange([t], |out|)
             && At(s, p, TokenBits(t, lit, dist))
    ensures BlockAt(s, p, lit, dist, out) == BlockAt(s, p + |TokenBits(t, lit, dist)|, lit, dist, Expand([t], out))
  {
    hide CodeBits, At, DecodeSymbol, NotOversubscribed, MatchAt, MatchTail, LengthCode, DistIndex, Copy;
    match t
    case Literal(b) =>
      DecodeCode(s, p, lit, b);
    case Match(length, distance, stretched) =>
      var sym := LengthSymbol(length, stretched);
      AtParts(s, p, CodeBits(lit, sym), MatchTail(length, distance, stretched, dist));
      DecodeCode(s, p, lit, sym);
      MatchRoundTrip(s, p + |CodeBits(lit, sym)|, length, distance, stretched, dist);
  }

  lemma ExpandHead(tokens: seq<Token>, out: Bytes)
    requires tokens != [] && InRange(tokens, |out|)
    ensures InRange([tokens[0]], |out|) && InRange(tokens[1..], |Expand([tokens[0]], out)|)
    ensures Expand(tokens, out) == Expand(tokens[1..], Expand([tokens[0]], out))
  {
    hide Copy;
    assert [tokens[0]][1..] == [];
  }

  lemma {:induction false} TokensRoundTrip(s: BitString, p: nat, tokens: seq<Token>, lit: Lengths, dist: Lengths,
      out: Bytes)
    requires GoodTables(lit, dist) && AllEncodable(tokens, lit, dist) && InRange(tokens, |out|)
    requires At(s, p, TokensBits(tokens, lit, dist))
    ensures BlockAt(s, p, lit, dist, out) == Some((Expand(tokens, out), p + |TokensBits(tokens, lit, dist)|))
    decreases |tokens|
  {
    hide At, DecodeSymbol, NotOversubscribed, MatchAt, CodeBits, TokenBits;
    if tokens == [] {
      DecodeCode(s, p, lit, 256);
    } else {
      hide BlockAt, Expand, InRange;
      AtParts(s, p, TokenBits(tokens[0], lit, dist), TokensBits(tokens[1..], lit, dist));
      ExpandHead(tokens, out);
      TokenStep(s, p, tokens[0], lit, dist, out);
      TokensRoundTrip(s, p + |TokenBits(tokens[0], lit, dist)|, tokens[1..], lit, dist, Expand([tokens[0]], out));
    }
  }

  /** Which of the repeated bytes the `n`-th copied one is. */
  function Phase(n: nat, distance: nat): (i: nat)
    requires distance >= 1
    ensures i < distance && (n == 0 ==> i == 0)
  {
    n % distance
  }

  /** An overlapping copy repeats the last `distance` bytes with that period. */
  lemma {:induction false} CopyIsPeriodic(out: Bytes, distance: nat, length: nat, k: nat)
    requires 1 <= distance <= |out| && k < |out| + length
    ensures k < |out| ==> Copy(out, distance, length)[k] == out[k]
    ensures k >= |out| ==> Copy(out, distance, length)[k] == out[|out| - distance + Phase(k - |out|, distance)]
    decreases length
  {
    hide Phase;
    if length > 0 {
      var next := out + [out[|out| - distance]];
      CopyIsPeriodic(next, distance, length - 1, k);
      if k > |out| {
        SameByte(out, distance, k - |out|);
      }
    }
  }

  /** The byte a later copy position reads does not change when one more byte has been copied. */
  lemma SameByte(out: Bytes, distance: nat, n: nat)
    requires 1 <= distance <= |out| && n >= 1
    ensures var next := out + [out[|out| - distance]];
            next[|next| - distance + Phase(n - 1, distance)] == out[|out| - distance + Phase(n, distance)]
  {
    hide Phase;
    PeriodStep(n, distance);
  }

  /** The position of the `n`-th copied byte, seen after one byte more has been copied. */
  lemma PeriodStep(n: nat, distance: nat)
    requires n >= 1 && distance >= 1
    ensures Phase(n - 1, distance) == if Phase(n, distance) == 0 then distance - 1 else Phase(n, distance) - 1
  {
    var q, r := n / distance, n % distance;
    assert n == q * distance + r;
    if r == 0 {
      MulDistrib(q, -1, distance);
      DivUnique(n - 1, distance, q - 1, distance - 1);
    } else {
      DivUnique(n - 1, distance, q, r - 1);
    }
  }

  // ---- dynamic headers (section 3.2.7) ----

  function OpSymbol(op: ClOp): nat
  {
    match op
    case Single(len) => len
    case Previous(_) => 16
    case ShortZeros(_) => 17
    case LongZeros(_) => 18
  }

  /** Width and value of the extra bits. */
  function OpExtra(op: ClOp): (e: (int, int))
  {
    match op
    case Single(_) => (0, 0)
    case Previous(times) => (2, times - 3)
    case ShortZeros(times) => (3, times - 3)
    case LongZeros(times) => (7, times - 11)
  }

  /** The numbers of times a symbol can say. */
  predicate InCode(op: ClOp) {
    match op
    case Single(_) => true
    case Previous(times) => 3 <= times <= 6
    case ShortZeros(times) => 3 <= times <= 10
    case LongZeros(times) => 11 <= times <= 138
  }

  predicate OpOk(op: ClOp, cl: Lengths) { Used(cl, OpSymbol(op)) && InCode(op) }

  predicate OpsOk(ops: seq<ClOp>, cl: Lengths) { forall i :: 0 <= i < |ops| ==> OpOk(ops[i], cl) }

  function Apply(op: ClOp, acc: Lengths): (r: Lengths)
  {
    match op
    case Single(len) => acc + [len]
    case Previous(times) => acc + Repeat(if acc == [] then 0 else acc[|acc| - 1], times)
    case ShortZeros(times) => acc + Repeat(0, times)
    case LongZeros(times) => acc + Repeat(0, times)
  }

  function ApplyAll(ops: seq<ClOp>, cl: Lengths, acc: Lengths): (r: Lengths)
    requires OpsOk(ops, cl)
    ensures |r| >= |acc| + |ops|
    decreases |ops|
  {
    if ops == [] then acc else ApplyAll(ops[1..], cl, Apply(ops[0], acc))
  }

  function OpBits(op: ClOp, cl: Lengths): BitString
    requires OpOk(op, cl)
  {
    CodeBits(cl, OpSymbol(op)) + LsbBits(OpExtra(op).1, OpExtra(op).0)
  }

  function OpsBits(ops: seq<ClOp>, cl: Lengths): BitString
    requires OpsOk(ops, cl)
  {
    if ops == [] then [] else OpBits(ops[0], cl) + OpsBits(ops[1..], cl)
  }

  lemma OpStep(s: BitString, p: nat, op: ClOp, cl: Lengths, total: nat, acc: Lengths)
    requires p <= |s| && NotOversubscribed(cl) && OpOk(op, cl) && At(s, p, OpBits(op, cl)) && |acc| < total
    ensures p + |OpBits(op, cl)| <= |s|
    ensures CodeLengthsAt(s, p, cl, total, acc) == CodeLengthsAt(s, p + |OpBits(op, cl)|, cl, total, Apply(op, acc))
  {
    hide CodeBits, At, DecodeSymbol, NotOversubscribed, LsbBits, Used, ReadBits, RepeatAt, Repeat;
    var sym := OpSymbol(op);
    var (n, v) := OpExtra(op);
    AtParts(s, p, CodeBits(cl, sym), LsbBits(v, n));
    AtInside(s, p, OpBits(op, cl));
    DecodeCode(s, p, cl, sym);
    if !op.Single? {
      RepeatStep(s, p + cl[sym], op, acc);
    }
  }

  lemma RepeatStep(s: BitString, p: nat, op: ClOp, acc: Lengths)
    requires InCode(op) && !op.Single?
    requires At(s, p, LsbBits(OpExtra(op).1, OpExtra(op).0))
    ensures var r := RepeatAt(s, p, OpSymbol(op), acc);
            r.Some? && r.value.1 == op.times && r.value.2 == p + OpExtra(op).0
            && r.value.0 == (if op.Previous? && acc != [] then acc[|acc| - 1] else 0)
  {
    hide At, LsbBits, Pow2;
    SmallPowers();
    TwoSquared();
    ReadField(s, p, OpExtra(op).1, OpExtra(op).0);
  }

  lemma TwoSquared()
    ensures Pow2(2) == 4
  {
  }

  lemma AtInside(s: BitString, p: nat, bs: BitString)
    requires At(s, p, bs)
    ensures p + |bs| <= |s|
  {
  }

  lemma OpsHead(ops: seq<ClOp>, cl: Lengths, acc: Lengths)
    requires OpsOk(ops, cl) && ops != []
    ensures OpsBits(ops, cl) == OpBits(ops[0], cl) + OpsBits(ops[1..], cl)
    ensures ApplyAll(ops, cl, acc) == ApplyAll(ops[1..], cl, Apply(ops[0], acc))
  {
    hide OpBits, Apply, OpOk;
  }

  lemma OpsDone(s: BitString, p: nat, cl: Lengths, acc: Lengths)
    ensures OpsBits([], cl) == [] && ApplyAll([], cl, acc) == acc
  {
  }

  /** Every code length symbol but the last leaves some lengths of the `total` to be sent. */
  predicate LeavesSome(ops: seq<ClOp>, cl: Lengths, acc: Lengths, total: nat)
    requires OpsOk(ops, cl)
  {
    ops != [] ==> |ApplyAll(ops[..|ops| - 1], cl, acc)| < total
  }

  lemma LeavesSomeLater(ops: seq<ClOp>, cl: Lengths, acc: Lengths, total: nat)
    requires OpsOk(ops, cl) && ops != [] && LeavesSome(ops, cl, acc, total)
    ensures |acc| < total && LeavesSome(ops[1..], cl, Apply(ops[0], acc), total)
  {
    hide OpOk, Apply;
    if |ops| > 1 {
      assert ops[..|ops| - 1][1..] == ops[1..][..|ops| - 2];
    }
  }

  /** The decoder gets through the symbols one by one. */
  lemma {:induction false} OpsRoundTrip(s: BitString, p: nat, ops: seq<ClOp>, cl: Lengths, acc: Lengths, total: nat)
    requires p <= |s| && NotOversubscribed(cl) && OpsOk(ops, cl) && At(s, p, OpsBits(ops, cl))
    requires LeavesSome(ops, cl, acc, total)
    ensures p + |OpsBits(ops, cl)| <= |s|
    ensures CodeLengthsAt(s, p, cl, total, acc)
            == CodeLengthsAt(s, p + |OpsBits(ops, cl)|, cl, total, ApplyAll(ops, cl, acc))
    decreases |ops|
  {
    hide At, NotOversubscribed, OpOk, OpBits, Apply, CodeLengthsAt, ApplyAll, OpsBits, LeavesSome;
    if ops == [] {
      OpsDone(s, p, cl, acc);
    } else {
      OpsHead(ops, cl, acc);
      LeavesSomeLater(ops, cl, acc, total);
      AtParts(s, p, OpBits(ops[0], cl), OpsBits(ops[1..], cl));
      OpStep(s, p, ops[0], cl, total, acc);
      OpsRoundTrip(s, p + |OpBits(ops[0], cl)|, ops[1..], cl, Apply(ops[0], acc), total);
    }
  }

  /** The place of each symbol in the order its code length is sent. */
  const RANK: seq<nat> := [3, 17, 15, 13, 11, 9, 7, 5, 4, 6, 8, 10, 12, 14, 16, 18, 0, 1, 2]

  function Rank(sym: nat): nat
    requires sym < 19
  {
    RANK[sym]
  }

  lemma OrderRank(k: nat, sym: nat)
    requires k < 19 && sym < 19
    ensures Rank(sym) == k <==> Order(k) == sym
  {
    RankOfOrder(k);
    OrderOfRank(sym);
    hide Rank, Order;
  }

  lemma RankOfOrder(k: nat)
    requires k < 19
    ensures Rank(Order(k)) == k
  {
  }

  lemma OrderOfRank(sym: nat)
    requires sym < 19
    ensures Rank(sym) < 19 && Order(Rank(sym)) == sym
  {
  }

  /** What has been received of the code length code after `k` of its lengths. */
  function Received(cl: Lengths, k: nat): (r: Lengths)
    requires |cl| == 19
    ensures |r| == 19
  {
    seq(19, i requires 0 <= i < 19 => if Rank(i) < k then cl[i] else 0)
  }

  lemma ReceiveNext(cl: Lengths, k: nat)
    requires |cl| == 19 && k < 19
    ensures Received(cl, k)[Order(k) := cl[Order(k)]] == Received(cl, k + 1)
  {
    hide Rank, Order;
    var updated, next := Received(cl, k)[Order(k) := cl[Order(k)]], Received(cl, k + 1);
    forall i | 0 <= i < 19 ensures updated[i] == next[i] {
      OrderRank(k, i);
    }
  }

  function ClBits(cl: Lengths, k: nat, n: nat): BitString
    requires |cl| == 19 && k <= n <= 19
    decreases n - k
  {
    if k == n then [] else LsbBits(cl[Order(k)], 3) + ClBits(cl, k + 1, n)
  }

  lemma {:induction false} ClRoundTrip(s: BitString, p: nat, cl: Lengths, k: nat, n: nat)
    requires |cl| == 19 && (forall i :: 0 <= i < 19 ==> cl[i] < 8) && k <= n <= 19 && At(s, p, ClBits(cl, k, n))
    ensures ClLengthsAt(s, p, k, n, Received(cl, k)) == Some((Received(cl, n), p + |ClBits(cl, k, n)|))
    decreases n - k
  {
    hide At, Order, Received, Pow2, Rank;
    if k < n {
      AtParts(s, p, LsbBits(cl[Order(k)], 3), ClBits(cl, k + 1, n));
      SmallPowers();
      ReadField(s, p, cl[Order(k)], 3);
      ReceiveNext(cl, k);
      ClRoundTrip(s, p + 3, cl, k + 1, n);
    }
  }

  /** What the fields of a header can express; nothing is asked of the tables but their sizes. */
  predicate HeaderForm(h: Header)
  {
    && 257 <= |h.lit| <= 288 && 1 <= |h.dist| <= 32 && 4 <= h.hclen <= 19 && |h.cl| == 19
    && (forall i :: 0 <= i < 19 ==> h.cl[i] < 8)
    && (forall i :: 0 <= i < 19 && Rank(i) >= h.hclen ==> h.cl[i] == 0)
    && OpsOk(h.ops, h.cl)
  }

  /** The code length symbols spell the two tables. */
  predicate Spells(h: Header)
    requires HeaderForm(h)
  {
    ApplyAll(h.ops, h.cl, []) == h.lit + h.dist
  }

  predicate HeaderOk(h: Header) { HeaderForm(h) && Spells(h) }

  /** None of its three codes is over-subscribed. */
  predicate GoodHeader(h: Header) { NotOversubscribed(h.cl) && GoodTables(h.lit, h.dist) }

  function HeaderBits(h: Header): BitString
    requires HeaderForm(h)
  {
    LsbBits(|h.lit| - 257, 5)
    + (LsbBits(|h.dist| - 1, 5) + (LsbBits(h.hclen - 4, 4) + (ClBits(h.cl, 0, h.hclen) + OpsBits(h.ops, h.cl))))
  }

  lemma ReceivedAll(cl: Lengths, n: nat)
    requires |cl| == 19 && forall i :: 0 <= i < 19 && Rank(i) >= n ==> cl[i] == 0
    ensures Received(cl, 0) == Repeat(0, 19) && Received(cl, n) == cl
  {
    hide Rank;
  }

  /** The fields in front of the code length symbols. */
  lemma HeaderPieces(s: BitString, p: nat, h: Header)
    requires HeaderForm(h) && At(s, p, HeaderBits(h))
    ensures var p1 := p + 14 + |ClBits(h.cl, 0, h.hclen)|;
            && p + 14 <= p1 <= |s| && p + |HeaderBits(h)| == p1 + |OpsBits(h.ops, h.cl)|
            && At(s, p + 14, ClBits(h.cl, 0, h.hclen)) && At(s, p1, OpsBits(h.ops, h.cl))
    ensures ReadBits(s, p, 5) == Some(|h.lit| - 257) && ReadBits(s, p + 5, 5) == Some(|h.dist| - 1)
    ensures ReadBits(s, p + 10, 4) == Some(h.hclen - 4)
  {
    hide At, NotOversubscribed, ClBits, OpsBits, Rank, ReadBits, Pow2, OpsOk, LsbBits;
    var a, b, c := LsbBits(|h.lit| - 257, 5), LsbBits(|h.dist| - 1, 5), LsbBits(h.hclen - 4, 4);
    var d, e := ClBits(h.cl, 0, h.hclen), OpsBits(h.ops, h.cl);
    SmallPowers();
    AtInside(s, p, HeaderBits(h));
    AtParts(s, p, a, b + (c + (d + e)));
    AtParts(s, p + 5, b, c + (d + e));
    AtParts(s, p + 10, c, d + e);
    AtParts(s, p + 14, d, e);
    ReadField(s, p, |h.lit| - 257, 5);
    ReadField(s, p + 5, |h.dist| - 1, 5);
    ReadField(s, p + 10, h.hclen - 4, 4);
  }

  lemma AllReceived(s: BitString, p: nat, h: Header)
    requires HeaderForm(h) && At(s, p, ClBits(h.cl, 0, h.hclen))
    ensures ClLengthsAt(s, p, 0, h.hclen, Repeat(0, 19)) == Some((h.cl, p + |ClBits(h.cl, 0, h.hclen)|))
  {
    hide At, ClLengthsAt, ClBits, OpsOk, Received, Repeat, NotOversubscribed;
    ReceivedAll(h.cl, h.hclen);
    ClRoundTrip(s, p, h.cl, 0, h.hclen);
  }

  /** What is left to do when they have been read. */
  lemma HeaderFields(s: BitString, p: nat, h: Header)
    requires HeaderForm(h) && At(s, p, HeaderBits(h))
    ensures var p1 := p + 14 + |ClBits(h.cl, 0, h.hclen)|;
            && p1 <= |s|
            && DynamicAt(s, p) == match CodeLengthsAt(s, p1, h.cl, |h.lit| + |h.dist|, [])
                                  case None => None
                                  case Some((lengths, p2)) => Some((lengths[..|h.lit|], lengths[|h.lit|..], p2))
  {
    hide At, NotOversubscribed, ClLengthsAt, CodeLengthsAt, ClBits, OpsBits, Received, Rank, ReadBits, OpsOk, LsbBits;
    hide HeaderBits, Repeat, DynamicAt;
    HeaderPieces(s, p, h);
    AllReceived(s, p + 14, h);
    FieldsRead(s, p, |h.lit|, |h.dist|, h.hclen, h.cl, p + 14 + |ClBits(h.cl, 0, h.hclen)|);
  }

  lemma FieldsRead(s: BitString, p: nat, hlit: nat, hdist: nat, hclen: nat, cl: Lengths, p1: nat)
    requires p + 14 <= |s| && hlit >= 257 && hdist >= 1 && 4 <= hclen <= 19 && p1 <= |s|
    requires ReadBits(s, p, 5) == Some(hlit - 257) && ReadBits(s, p + 5, 5) == Some(hdist - 1)
    requires ReadBits(s, p + 10, 4) == Some(hclen - 4)
    requires ClLengthsAt(s, p + 14, 0, hclen, Repeat(0, 19)) == Some((cl, p1))
    ensures DynamicAt(s, p) == match CodeLengthsAt(s, p1, cl, hlit + hdist, [])
                               case None => None
                               case Some((lengths, p2)) => Some((lengths[..hlit], lengths[hlit..], p2))
  {
    hide ClLengthsAt, CodeLengthsAt, ReadBits, Pow2, Repeat;
  }

  /**
   Which headers are refused: with symbols that reach the number of lengths announced only with the last one, exactly
   those that overshoot it. The tables themselves are never looked at.
   */
  lemma HeaderAccepted(s: BitString, p: nat, h: Header)
    requires HeaderForm(h) && NotOversubscribed(h.cl) && At(s, p, HeaderBits(h))
    requires LeavesSome(h.ops, h.cl, [], |h.lit| + |h.dist|)
    requires |ApplyAll(h.ops, h.cl, [])| >= |h.lit| + |h.dist|
    ensures var lengths := ApplyAll(h.ops, h.cl, []);
            DynamicAt(s, p) == if |lengths| == |h.lit| + |h.dist|
                               then Some((lengths[..|h.lit|], lengths[|h.lit|..], p + |HeaderBits(h)|))
                               else None
  {
    hide At, NotOversubscribed, ClBits, OpsBits, ApplyAll, LeavesSome, DynamicAt, HeaderBits, OpsOk, Rank;
    HeaderPieces(s, p, h);
    HeaderFields(s, p, h);
    OpsRoundTrip(s, p + 14 + |ClBits(h.cl, 0, h.hclen)|, h.ops, h.cl, [], |h.lit| + |h.dist|);
  }

  lemma SpelledOut(h: Header)
    requires HeaderForm(h) && Spells(h)
    ensures LeavesSome(h.ops, h.cl, [], |h.lit| + |h.dist|)
  {
    hide OpOk, Rank, NotOversubscribed;
    if h.ops != [] {
      ApplyLast(h.ops, h.cl, []);
    }
  }

  /** The last symbol adds at least one length. */
  lemma {:induction false} ApplyLast(ops: seq<ClOp>, cl: Lengths, acc: Lengths)
    requires OpsOk(ops, cl) && ops != []
    ensures |ApplyAll(ops[..|ops| - 1], cl, acc)| < |ApplyAll(ops, cl, acc)|
    decreases |ops|
  {
    hide Apply;
    if |ops| > 1 {
      assert ops[..|ops| - 1][1..] == ops[1..][..|ops| - 2];
      ApplyLast(ops[1..], cl, Apply(ops[0], acc));
    } else {
      AppliedGrows(ops[0], cl, acc);
    }
  }

  lemma AppliedGrows(op: ClOp, cl: Lengths, acc: Lengths)
    requires OpOk(op, cl)
    ensures |Apply(op, acc)| > |acc|
  {
  }

  /** Any header with any choice of repeat codes gives back its two length tables, over-subscribed or not. */
  lemma HeaderRoundTrip(s: BitString, p: nat, h: Header)
    requires HeaderForm(h) && Spells(h) && NotOversubscribed(h.cl) && At(s, p, HeaderBits(h))
    ensures DynamicAt(s, p) == Some((h.lit, h.dist, p + |HeaderBits(h)|))
  {
    hide At, HeaderBits, HeaderForm, DynamicAt, ApplyAll, LeavesSome;
    SpelledOut(h);
    HeaderAccepted(s, p, h);
    assert (h.lit + h.dist)[..|h.lit|] == h.lit && (h.lit + h.dist)[|h.lit|..] == h.dist;
  }

  // ---- blocks and whole streams ----

  function BlockType(b: Block): nat { if b.Stored? then 0 else if b.Fixed? then 1 else 2 }

  /** A block that may follow `n` bytes of output, its body starting at bit `p`. */
  predicate BlockOk(b: Block, p: nat, n: nat)
  {
    match b
    case Stored(pad, bytes) => |pad| == Align(p) - p && |bytes| <= 65535
    case Fixed(tokens) => AllEncodable(tokens, FixedLiteral(), FixedDistance()) && InRange(tokens, n)
    case Dynamic(h, tokens) => HeaderOk(h) && AllEncodable(tokens, h.lit, h.dist) && InRange(tokens, n)
  }

  function BodyBits(b: Block, p: nat, n: nat): BitString
    requires BlockOk(b, p, n)
  {
    match b
    case Stored(pad, bytes) => pad + (LsbBits(|bytes|, 16) + (LsbBits(65535 - |bytes|, 16) + BitsOf(bytes)))
    case Fixed(tokens) => TokensBits(tokens, FixedLiteral(), FixedDistance())
    case Dynamic(h, tokens) => HeaderBits(h) + TokensBits(tokens, h.lit, h.dist)
  }

  function ExpandBlock(b: Block, p: nat, out: Bytes): Bytes
    requires BlockOk(b, p, |out|)
  {
    match b
    case Stored(_, bytes) => out + bytes
    case Fixed(tokens) => Expand(tokens, out)
    case Dynamic(_, tokens) => Expand(tokens, out)
  }

  lemma StoredRoundTrip(s: BitString, p: nat, pad: BitString, bytes: Bytes)
    requires BlockOk(Stored(pad, bytes), p, 0) && At(s, p, BodyBits(Stored(pad, bytes), p, 0))
    ensures StoredAt(s, p) == Some((bytes, p + |BodyBits(Stored(pad, bytes), p, 0)|))
  {
    hide At, LsbBits, BitsOf, Value, BytesAt, Pow2, ReadBits;
    var len := |bytes|;
    var a, b, c := LsbBits(len, 16), LsbBits(65535 - len, 16), BitsOf(bytes);
    Pow2Of24();
    AtInside(s, p, pad + (a + (b + c)));
    AtParts(s, p, pad, a + (b + c));
    var p1 := p + |pad|;
    AtParts(s, p1, a, b + c);
    AtParts(s, p1 + 16, b, c);
    ReadField(s, p1, len, 16);
    ReadField(s, p1 + 16, 65535 - len, 16);
    FieldValue(s, p1, 16);
    FieldValue(s, p1 + 16, 16);
    BytesAtBits(s, p1 + 32, bytes);
  }

  lemma FieldValue(s: BitString, p: nat, n: nat)
    requires p + n <= |s|
    ensures ReadBits(s, p, n) == Some(Value(s[p..p + n]))
  {
  }

  /** The fixed codes are complete or under-full, so they decode. */
  lemma FixedTablesGood()
    ensures GoodTables(FixedLiteral(), FixedDistance())
  {
    hide Pow2, KraftIn, FixedLiteral, FixedDistance;
    FixedLengths();
    var lit := FixedLiteral();
    KraftRun(lit, 0, 144, 8);
    KraftRun(lit, 144, 112, 9);
    KraftRun(lit, 256, 24, 7);
    KraftRun(lit, 280, 8, 8);
    KraftRun(FixedDistance(), 0, 30, 5);
    KraftEmpty(lit);
    KraftEmpty(FixedDistance());
    Pow2At15();
    PowersTo(7);
    PowersTo(6);
    PowersTo(8);
    PowersTo(10);
  }

  lemma FixedLengths()
    ensures |FixedLiteral()| == 288 && |FixedDistance()| == 30
    ensures forall i :: 0 <= i < 288 ==>
              FixedLiteral()[i] == if i < 144 then 8 else if i < 256 then 9 else if i < 280 then 7 else 8
    ensures forall i :: 0 <= i < 30 ==> FixedDistance()[i] == 5
  {
  }

  lemma KraftEmpty(ls: Lengths)
    ensures KraftIn(ls, 0, MAX_BITS) == 0
  {
  }

  lemma Pow2At15()
    ensures Pow2(15) == 32768
  {
    PowersTo(13);
  }

  /** A run of symbols of one length adds its share of the code space. */
  lemma {:induction false} KraftRun(ls: Lengths, start: nat, n: nat, len: nat)
    requires start + n <= |ls| && 1 <= len <= MAX_BITS && forall i :: start <= i < start + n ==> ls[i] == len
    ensures KraftIn(ls, start + n, MAX_BITS) == KraftIn(ls, start, MAX_BITS) + n * Pow2(MAX_BITS - len)
  {
    if n > 0 {
      KraftRun(ls, start, n - 1, len);
      hide Pow2;
      MulDistrib(n - 1, 1, Pow2(MAX_BITS - len));
    }
  }

  predicate GoodBlock(b: Block) { b.Dynamic? ==> GoodHeader(b.header) }

  predicate AllGood(blocks: seq<Block>) { forall i :: 0 <= i < |blocks| ==> GoodBlock(blocks[i]) }

  lemma BlockRoundTrip(s: BitString, p: nat, b: Block, out: Bytes)
    requires BlockOk(b, p, |out|) && GoodBlock(b) && At(s, p, BodyBits(b, p, |out|))
    ensures BlockOfType(s, p, BlockType(b), out) == Some((ExpandBlock(b, p, out), p + |BodyBits(b, p, |out|)|))
  {
    hide At, TokensBits, BlockAt, StoredAt, DynamicAt, HeaderBits, HeaderOk, HeaderForm, Spells, FixedLiteral;
    hide FixedDistance, AllEncodable, InRange, Expand, BitsOf, LsbBits, NotOversubscribed;
    match b
    case Stored(pad, bytes) =>
      StoredRoundTrip(s, p, pad, bytes);
    case Fixed(tokens) =>
      FixedTablesGood();
      TokensRoundTrip(s, p, tokens, FixedLiteral(), FixedDistance(), out);
    case Dynamic(h, tokens) =>
      HeaderTables(h);
      AtParts(s, p, HeaderBits(h), TokensBits(tokens, h.lit, h.dist));
      HeaderRoundTrip(s, p, h);
      TokensRoundTrip(s, p + |HeaderBits(h)|, tokens, h.lit, h.dist, out);
  }

  lemma HeaderTables(h: Header)
    requires HeaderOk(h) && GoodHeader(h)
    ensures HeaderForm(h) && Spells(h) && NotOversubscribed(h.cl) && GoodTables(h.lit, h.dist)
  {
  }

  function HeadBits(b: Block, last: bool): BitString { [if last then 1 else 0] + LsbBits(BlockType(b), 2) }

  /**
   The encoder: the bits of a list of blocks from bit `p` on, after `out`, and the bytes they stand for.
   Only the last block is marked final. None for a list that is no DEFLATE stream.
   */
  function Encode(blocks: seq<Block>, p: nat, out: Bytes): Option<(BitString, Bytes)>
    decreases |blocks|
  {
    if blocks == [] || !BlockOk(blocks[0], p + 3, |out|) then None
    else
      var b := blocks[0];
      var body, out1 := BodyBits(b, p + 3, |out|), ExpandBlock(b, p + 3, out);
      if |blocks| == 1 then Some((HeadBits(b, true) + body, out1))
      else match Encode(blocks[1..], p + 3 + |body|, out1)
        case None => None
        case Some((rest, expanded)) => Some((HeadBits(b, false) + (body + rest), expanded))
  }

  lemma HeadRoundTrip(s: BitString, p: nat, b: Block, last: bool)
    requires At(s, p, HeadBits(b, last))
    ensures p + 3 <= |s| && ReadBits(s, p, 1) == Some(if last then 1 else 0)
            && ReadBits(s, p + 1, 2) == Some(BlockType(b))
  {
    hide At, Pow2, ReadBits;
    AtInside(s, p, HeadBits(b, last));
    AtParts(s, p, [if last then 1 else 0], LsbBits(BlockType(b), 2));
    AtOne(s, p, if last then 1 else 0);
    TwoSquared();
    ReadField(s, p + 1, BlockType(b), 2);
  }

  lemma AtOne(s: BitString, p: nat, b: bit)
    requires At(s, p, [b])
    ensures ReadBits(s, p, 1) == Some(b)
  {
    assert [b][1..] == [];
    assert Value([b]) == b + 2 * Value([]);
  }

  /** Whatever stands after it, an encoded stream is decoded to the expansion of all its tokens. */
  lemma {:induction false} StreamRoundTrip(s: BitString, p: nat, blocks: seq<Block>, out: Bytes)
    requires Encode(blocks, p, out).Some? && AllGood(blocks) && At(s, p, Encode(blocks, p, out).value.0)
    ensures StreamAt(s, p, out) == Some(Encode(blocks, p, out).value.1)
    decreases |blocks|
  {
    hide At, BlockOk, BodyBits, ExpandBlock, HeadBits, BlockOfType, ReadBits;
    var b, last := blocks[0], |blocks| == 1;
    var body := BodyBits(b, p + 3, |out|);
    if last {
      AtParts(s, p, HeadBits(b, true), body);
    } else {
      var rest := Encode(blocks[1..], p + 3 + |body|, ExpandBlock(b, p + 3, out)).value.0;
      AtParts(s, p, HeadBits(b, false), body + rest);
      HeadLength(b, false);
      AtParts(s, p + 3, body, rest);
      StreamRoundTrip(s, p + 3 + |body|, blocks[1..], ExpandBlock(b, p + 3, out));
    }
    HeadLength(b, last);
    HeadRoundTrip(s, p, b, last);
    BlockRoundTrip(s, p + 3, b, out);
  }

  lemma HeadLength(b: Block, last: bool)
    ensures |HeadBits(b, last)| == 3
  {
  }

  /**
   For every stream of stored, fixed and dynamic blocks, decoding its bytes (the last one filled up with zeros)
   gives exactly the expansion; `Inflate` computes `StreamAt` on the bits of its input.
   */
  lemma InflateInverts(blocks: seq<Block>)
    requires Encode(blocks, 0, []).Some? && AllGood(blocks)
    ensures var (bits, expanded) := Encode(blocks, 0, []).value; StreamAt(BitsOf(Pack(bits)), 0, []) == Some(expanded)
  {
    hide Encode, StreamAt, BitsOf, Pack;
    var bits := Encode(blocks, 0, []).value.0;
    PackStarts(bits);
    StreamRoundTrip(BitsOf(Pack(bits)), 0, blocks, []);
  }
}
