/**
 Over-subscribed code lengths in a dynamic block: kernel/src/inflate.rs builds its tables from them without a look at
 Kraft's inequality, although the comment on `inflate` counts a bad Huffman table among what it refuses.
 */
module DeflateTables {
  import opened Common
  import opened Bits
  import opened HuffmanCode
  import opened Deflate
  import opened DeflateRoundTrip

  // ---- the tables of section 3.2.5 and 3.2.7 of RFC 1951 ----

  /** Lengths in groups of four codes with one extra bit more each, the last code for 258 alone. */
  lemma LengthTable(k: nat)
    requires k < 29
    ensures LengthExtra(k) == if k < 8 || k == 28 then 0 else k / 4 - 1
    ensures LengthBase(k) == if k == 28 then 258 else if k < 8 then 3 + k else (4 + k % 4) * Pow2(k / 4 - 1) + 3
  {
    PowersTo13();
    hide Pow2;
  }

  /** Distances in groups of two codes. */
  lemma DistanceTable(k: nat)
    requires k < 30
    ensures DistExtra(k) == if k < 2 then 0 else k / 2 - 1
    ensures DistBase(k) == if k < 2 then 1 + k else (2 + k % 2) * Pow2(k / 2 - 1) + 1
  {
    hide Pow2, DistBase;
    DistanceStarts(k / 2);
  }

  lemma DistanceStarts(j: nat)
    requires j < 15
    ensures j == 0 ==> DistBase(0) == 1 && DistBase(1) == 2
    ensures j > 0 ==> DistBase(2 * j) == 2 * Pow2(j - 1) + 1 && DistBase(2 * j + 1) == 3 * Pow2(j - 1) + 1
  {
    PowersTo13();
    hide Pow2;
  }

  lemma PowersTo13()
    ensures Pow2(0) == 1 && Pow2(1) == 2 && Pow2(2) == 4 && Pow2(3) == 8 && Pow2(4) == 16 && Pow2(5) == 32
            && Pow2(6) == 64 && Pow2(7) == 128 && Pow2(8) == 256 && Pow2(9) == 512 && Pow2(10) == 1024
            && Pow2(11) == 2048 && Pow2(12) == 4096 && Pow2(13) == 8192
  {
  }

  /** Code lengths are sent repeat codes first, then from 8 outwards. */
  lemma OrderTable(k: nat)
    requires k < 19
    ensures Order(k) == if k < 3 then 16 + k else if k == 3 then 0
                        else if k % 2 == 0 then 8 + (k - 4) / 2 else 8 - (k - 3) / 2
  {
  }

  // ---- over-subscribed tables ----

  /** Symbols 255 and 256 share the whole code space, and 257 has a code beyond it. */
  function CrowdedLiteral(): Lengths { Repeat(0, 255) + [1, 1, 2] }

  function CrowdedHeader(): Header {
    Header(CrowdedLiteral(), [1], [0, 2, 2, 0, 0, 0, 0, 0, 0, 0, 0, 0, 0, 0, 0, 0, 0, 0, 1], 18,
           [LongZeros(138), LongZeros(117), Single(1), Single(1), Single(2), Single(1)])
  }

  lemma Crowded()
    ensures !NotOversubscribed(CrowdedLiteral())
  {
    var lit := CrowdedLiteral();
    Pow2At15();
    assert Pow2(15) == 2 * Pow2(14) && Pow2(14) == 2 * Pow2(13);
    hide Pow2;
    KraftLast(lit, 258);
    KraftLast(lit, 257);
    KraftLast(lit, 256);
  }

  lemma KraftLast(ls: Lengths, n: nat)
    requires 0 < n <= |ls| && ls[n - 1] >= 1
    ensures KraftIn(ls, n, MAX_BITS) == KraftIn(ls, n - 1, MAX_BITS) + Pow2(MAX_BITS - ls[n - 1])
  {
  }

  /** The symbols used in the header have codes that can be decoded. */
  lemma CodeLengthCode()
    ensures NotOversubscribed(CrowdedHeader().cl)
  {
    var cl := CrowdedHeader().cl;
    Pow2At15();
    assert Pow2(15) == 2 * Pow2(14) && Pow2(14) == 2 * Pow2(13);
    KraftUnused(cl, 18, 3);
    hide Pow2;
    KraftLast(cl, 19);
    KraftLast(cl, 3);
    KraftLast(cl, 2);
  }

  /** Unused symbols take no code space. */
  lemma {:induction false} KraftUnused(ls: Lengths, n: nat, m: nat)
    requires m <= n <= |ls| && forall i :: m <= i < n ==> ls[i] == 0
    ensures KraftIn(ls, n, MAX_BITS) == KraftIn(ls, m, MAX_BITS)
  {
    if m < n {
      KraftUnused(ls, n - 1, m);
    }
  }

  lemma CrowdedForm()
    ensures HeaderForm(CrowdedHeader())
  {
    hide NotOversubscribed, Rank, CrowdedHeader, OpsOk;
    CodeLengthCode();
    CrowdedFields();
    CrowdedSymbols();
    forall i | 0 <= i < 19 && Rank(i) >= 18 ensures CrowdedHeader().cl[i] == 0 { SentLast(i); }
  }

  lemma CrowdedFields()
    ensures var h := CrowdedHeader();
            && h.lit == CrowdedLiteral() && |h.lit| == 258 && h.dist == [1] && h.hclen == 18
            && |h.cl| == 19 && h.cl[15] == 0 && forall i :: 0 <= i < 19 ==> h.cl[i] < 8
  {
  }

  lemma CrowdedSymbols()
    ensures OpsOk(CrowdedHeader().ops, CrowdedHeader().cl)
  {
  }

  lemma SentLast(i: nat)
    requires i < 19 && Rank(i) >= 18
    ensures i == 15
  {
  }

  lemma CrowdedSpells()
    ensures HeaderForm(CrowdedHeader()) && Spells(CrowdedHeader())
  {
    CrowdedForm();
    hide HeaderForm, ApplyAll, Apply, NotOversubscribed, CrowdedLiteral;
    CrowdedSymbols();
    CrowdedLengths();
    var h := CrowdedHeader();
    var longer := Apply(h.ops[1], Apply(h.ops[0], []));
    ApplyOne(h.ops, h.cl, []);
    ApplyOne(h.ops[1..], h.cl, Apply(h.ops[0], []));
    ApplySingles(h.ops[2..], h.cl, longer, [1, 1, 2, 1]);
  }

  lemma CrowdedLengths()
    ensures var h := CrowdedHeader(); Apply(h.ops[1], Apply(h.ops[0], [])) + [1, 1, 2, 1] == h.lit + h.dist
  {
  }

  /** Lengths sent one by one. */
  lemma {:induction false} ApplySingles(ops: seq<ClOp>, cl: Lengths, acc: Lengths, lengths: Lengths)
    requires OpsOk(ops, cl) && |ops| == |lengths| && forall i :: 0 <= i < |ops| ==> ops[i] == Single(lengths[i])
    ensures ApplyAll(ops, cl, acc) == acc + lengths
    decreases |ops|
  {
    hide OpOk;
    if ops != [] {
      ApplySingles(ops[1..], cl, acc + [lengths[0]], lengths[1..]);
      assert acc + [lengths[0]] + lengths[1..] == acc + lengths;
    }
  }

  lemma ApplyOne(ops: seq<ClOp>, cl: Lengths, acc: Lengths)
    requires OpsOk(ops, cl) && ops != []
    ensures ApplyAll(ops, cl, acc) == ApplyAll(ops[1..], cl, Apply(ops[0], acc))
  {
  }

  /** One bit after the header is the end of the block. */
  lemma EndsAtOnce(s: BitString, p: nat)
    requires At(s, p, [1])
    ensures BlockAt(s, p, CrowdedLiteral(), [1], []) == Some(([], p + 1))
  {
    var lit := CrowdedLiteral();
    NoneOfLength(lit, 255, 1);
    assert s[p..p + 1][0] == s[p];
    assert CountIn(lit, 256, 1) == 1 && CountIn(lit, 257, 1) == 2 && CountIn(lit, 258, 1) == 2;
    assert NthIn(lit, 257, 1, 1) == 256;
    assert NthIn(lit, 258, 1, 1) == 256;
    assert DecodeFrom(s, p, lit, 1, 0, 0) == Some((256, p + 1));
  }

  lemma {:induction false} NoneOfLength(ls: Lengths, n: nat, l: nat)
    requires n <= |ls| && forall i :: 0 <= i < n ==> ls[i] != l
    ensures CountIn(ls, n, l) == 0
  {
    if n > 0 {
      NoneOfLength(ls, n - 1, l);
    }
  }

  /** A whole stream: one final dynamic block that ends at once. */
  function CrowdedStream(): BitString
    requires HeaderForm(CrowdedHeader())
  {
    HeadBits(Dynamic(CrowdedHeader(), []), true) + (HeaderBits(CrowdedHeader()) + [1])
  }

  /** It is accepted, although symbol 257 can never be decoded. */
  lemma CrowdedAccepted()
    ensures HeaderForm(CrowdedHeader()) && !NotOversubscribed(CrowdedHeader().lit)
    ensures StreamAt(BitsOf(Pack(CrowdedStream())), 0, []) == Some([])
  {
    CrowdedSpells();
    Crowded();
    CrowdedFields();
    hide *;
    PackStarts(CrowdedStream());
    StreamIs();
    CrowdedRead(BitsOf(Pack(CrowdedStream())));
  }

  lemma StreamIs()
    requires HeaderForm(CrowdedHeader())
    ensures CrowdedStream() == HeadBits(Dynamic(CrowdedHeader(), []), true) + (HeaderBits(CrowdedHeader()) + [1])
  {
  }

  lemma CrowdedRead(s: BitString)
    requires HeaderForm(CrowdedHeader()) && At(s, 0, CrowdedStream())
    ensures StreamAt(s, 0, []) == Some([])
  {
    hide At, HeadBits, HeaderBits, HeaderForm, Spells, DynamicAt, BlockAt, ReadBits, CrowdedHeader, CrowdedStream;
    hide CrowdedLiteral, StoredAt, NotOversubscribed;
    var h := CrowdedHeader();
    var b := Dynamic(h, []);
    CrowdedSpells();
    CrowdedFields();
    CodeLengthCode();
    StreamIs();
    AtParts(s, 0, HeadBits(b, true), HeaderBits(h) + [1]);
    HeadLength(b, true);
    HeadRoundTrip(s, 0, b, true);
    AtParts(s, 3, HeaderBits(h), [1]);
    HeaderRoundTrip(s, 3, h);
    EndsAtOnce(s, 3 + |HeaderBits(h)|);
  }
}
