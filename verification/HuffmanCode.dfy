/**
 Canonical prefix codes as section 3.2.2 of RFC 1951 assigns them, from nothing but a list of code lengths;
 decoding as a search of those codes; and the agreement of the two.
 */
module HuffmanCode {
  import opened Common
  import opened Bits

  const MAX_BITS: nat := 15

  /** Code length of each symbol, 0 for an unused one. */
  type Lengths = ls: seq<nat> | forall i :: 0 <= i < |ls| ==> ls[i] <= MAX_BITS

  /** How many of the first `n` symbols have length `l`. */
  function CountIn(ls: Lengths, n: nat, l: nat): (c: nat)
    requires n <= |ls|
    ensures c <= n
  {
    if n == 0 then 0 else CountIn(ls, n - 1, l) + (if ls[n - 1] == l then 1 else 0)
  }

  function Count(ls: Lengths, l: nat): nat { CountIn(ls, |ls|, l) }

  /** `next_code[l]` of RFC 1951: the smallest code of length `l`. */
  function FirstCode(ls: Lengths, l: nat): nat
    requires l >= 1
  {
    if l == 1 then 0 else 2 * (FirstCode(ls, l - 1) + Count(ls, l - 1))
  }

  predicate Used(ls: Lengths, sym: nat) { sym < |ls| && ls[sym] != 0 }

  /** Symbols of one length take consecutive codes in symbol order. */
  function Code(ls: Lengths, sym: nat): nat
    requires Used(ls, sym)
  {
    FirstCode(ls, ls[sym]) + CountIn(ls, sym, ls[sym])
  }

  /** Huffman codes are packed most significant bit first (RFC 1951 section 3.1.1). */
  function MsbBits(v: nat, n: nat): (s: BitString)
    ensures |s| == n
  {
    if n == 0 then [] else MsbBits(v / 2, n - 1) + [v % 2]
  }

  function CodeBits(ls: Lengths, sym: nat): (s: BitString)
    requires Used(ls, sym)
    ensures |s| == ls[sym]
  {
    MsbBits(Code(ls, sym), ls[sym])
  }

  /** Twice to the fifteenth times the Kraft sum of the first `n` symbols whose length is at most `l`. */
  function KraftIn(ls: Lengths, n: nat, l: nat): nat
    requires n <= |ls|
  {
    if n == 0 then 0
    else KraftIn(ls, n - 1, l) + (if 1 <= ls[n - 1] <= l then Pow2(MAX_BITS - ls[n - 1]) else 0)
  }

  /** Not over-subscribed: Kraft's inequality. */
  predicate NotOversubscribed(ls: Lengths) { KraftIn(ls, |ls|, MAX_BITS) <= Pow2(MAX_BITS) }

  // ---- decoding ----

  /** The symbol of length `l` that has exactly `r` predecessors of that length among the first `n`. */
  function NthIn(ls: Lengths, n: nat, l: nat, r: nat): (sym: nat)
    requires n <= |ls| && r < CountIn(ls, n, l)
    ensures sym < n && ls[sym] == l && CountIn(ls, sym, l) == r
  {
    if ls[n - 1] == l && CountIn(ls, n - 1, l) == r then n - 1 else NthIn(ls, n - 1, l, r)
  }

  /**
   Reads bit by bit from `p`: `code` is what has been read so far, doubled; `first` the smallest code of length `len`.
   */
  function DecodeFrom(s: BitString, p: nat, ls: Lengths, len: nat, code: nat, first: nat): (r: Option<(nat, nat)>)
    requires 1 <= len && first <= code
    ensures r.Some? ==> r.value.0 < |ls| && p < r.value.1 <= |s|
    decreases 16 - len
  {
    if len > MAX_BITS || p >= |s| then None
    else
      var c := code + s[p];
      if c - first < Count(ls, len) then Some((NthIn(ls, |ls|, len, c - first), p + 1))
      else DecodeFrom(s, p + 1, ls, len + 1, 2 * c, 2 * (first + Count(ls, len)))
  }

  /** The next symbol and the position after its code. */
  function DecodeSymbol(s: BitString, p: nat, ls: Lengths): (r: Option<(nat, nat)>)
    ensures r.Some? ==> r.value.0 < |ls| && p < r.value.1 <= |s|
  {
    DecodeFrom(s, p, ls, 1, 0, 0)
  }

  // ---- counting ----

  lemma {:induction false} CountMonotone(ls: Lengths, m: nat, n: nat, l: nat)
    requires m <= n <= |ls|
    ensures CountIn(ls, m, l) <= CountIn(ls, n, l)
  {
    if m < n {
      CountMonotone(ls, m, n - 1, l);
    }
  }

  /** A symbol's rank is below its successors' and below the count. */
  lemma CountStrict(ls: Lengths, m: nat, n: nat)
    requires m < n <= |ls|
    ensures CountIn(ls, m, ls[m]) < CountIn(ls, n, ls[m])
  {
    CountMonotone(ls, m + 1, n, ls[m]);
  }

  /** The rank of a symbol among those of its length determines it. */
  lemma RankUnique(ls: Lengths, a: nat, b: nat)
    requires a < |ls| && b < |ls| && ls[a] == ls[b] && CountIn(ls, a, ls[a]) == CountIn(ls, b, ls[a])
    ensures a == b
  {
    if a < b {
      CountStrict(ls, a, b);
    } else if b < a {
      CountStrict(ls, b, a);
    }
  }

  // ---- codes grow with length, and fit when not over-subscribed ----

  /** The codes of length `len` start at or above every shorter code's continuation. */
  lemma {:induction false} FirstGrows(ls: Lengths, k: nat, len: nat)
    requires 1 <= k < len
    ensures FirstCode(ls, len) >= Pow2(len - k) * (FirstCode(ls, k) + Count(ls, k))
    decreases len
  {
    if len == k + 1 {
      assert Pow2(1) == 2;
    } else {
      FirstGrows(ls, k, len - 1);
      hide FirstCode, Count;
      MulAssoc(2, Pow2(len - 1 - k), FirstCode(ls, k) + Count(ls, k));
      NextFirst(ls, len);
    }
  }

  lemma NextFirst(ls: Lengths, len: nat)
    requires len >= 2
    ensures FirstCode(ls, len) == 2 * (FirstCode(ls, len - 1) + Count(ls, len - 1))
  {
  }

  lemma {:induction false} KraftStep(ls: Lengths, n: nat, l: nat)
    requires n <= |ls| && 1 <= l <= MAX_BITS
    ensures KraftIn(ls, n, l) == KraftIn(ls, n, l - 1) + CountIn(ls, n, l) * Pow2(MAX_BITS - l)
  {
    if n > 0 {
      KraftStep(ls, n - 1, l);
      hide Pow2;
      MulDistrib(CountIn(ls, n - 1, l), if ls[n - 1] == l then 1 else 0, Pow2(MAX_BITS - l));
    }
  }

  lemma {:induction false} KraftMonotone(ls: Lengths, n: nat, k: nat, l: nat)
    requires n <= |ls| && k <= l
    ensures KraftIn(ls, n, k) <= KraftIn(ls, n, l)
  {
    if n > 0 {
      KraftMonotone(ls, n - 1, k, l);
    }
  }

  /** The codes up to length `l` use up their Kraft sum of the code space, and no more. */
  lemma {:induction false} CodeSpace(ls: Lengths, l: nat)
    requires 1 <= l <= MAX_BITS
    ensures (FirstCode(ls, l) + Count(ls, l)) * Pow2(MAX_BITS - l) == KraftIn(ls, |ls|, l)
  {
    KraftStep(ls, |ls|, l);
    MulDistrib(FirstCode(ls, l), Count(ls, l), Pow2(MAX_BITS - l));
    if l == 1 {
      KraftNone(ls, |ls|);
    } else {
      CodeSpace(ls, l - 1);
      NextFirst(ls, l);
      hide FirstCode, Count, KraftIn;
      MulAssoc(FirstCode(ls, l - 1) + Count(ls, l - 1), 2, Pow2(MAX_BITS - l));
      assert Pow2(MAX_BITS - (l - 1)) == 2 * Pow2(MAX_BITS - l);
    }
  }

  lemma {:induction false} KraftNone(ls: Lengths, n: nat)
    requires n <= |ls|
    ensures KraftIn(ls, n, 0) == 0
  {
    if n > 0 {
      KraftNone(ls, n - 1);
    }
  }

  /** Every code fits in its length exactly because the code is not over-subscribed. */
  lemma CodesFit(ls: Lengths, l: nat)
    requires NotOversubscribed(ls) && 1 <= l <= MAX_BITS
    ensures FirstCode(ls, l) + Count(ls, l) <= Pow2(l)
  {
    hide FirstCode, Count, KraftIn, Pow2;
    CodeSpace(ls, l);
    KraftMonotone(ls, |ls|, l, MAX_BITS);
    Pow2Add(l, MAX_BITS - l);
    MulCancel(FirstCode(ls, l) + Count(ls, l), Pow2(l), Pow2(MAX_BITS - l));
  }

  lemma MulCancel(a: int, b: int, c: int)
    requires c > 0 && a * c <= b * c
    ensures a <= b
  {
    if a > b {
      MulMono(b + 1, a, c);
      MulDistrib(b, 1, c);
    }
  }

  // ---- decoding inverts the code assignment ----

  /** The code of a symbol, cut off after `k` bits, is no code of a symbol with `k` bits. */
  lemma PrefixIsNoCode(ls: Lengths, sym: nat, k: nat)
    requires Used(ls, sym) && 1 <= k < ls[sym]
    ensures High(Code(ls, sym), ls[sym] - k) >= FirstCode(ls, k) + Count(ls, k)
  {
    FirstGrows(ls, k, ls[sym]);
    hide FirstCode, Count, Pow2;
    var m, c := FirstCode(ls, k) + Count(ls, k), Code(ls, sym);
    HighAtLeast(c, ls[sym] - k, m);
  }

  lemma HighAtLeast(x: nat, n: nat, m: nat)
    requires x >= Pow2(n) * m
    ensures High(x, n) >= m
  {
    hide Pow2;
    var q := x / Pow2(n);
    if q < m {
      MulMono(q + 1, m, Pow2(n));
      MulDistrib(q, 1, Pow2(n));
    }
  }

  /** The `k`-th bit, counted from the top, of an `n`-bit code. */
  lemma {:induction false} MsbBitAt(v: nat, n: nat, k: nat)
    requires k < n
    ensures MsbBits(v, n)[k] == High(v, n - 1 - k) % 2
    decreases n
  {
    if k == n - 1 {
      assert Pow2(0) == 1;
    } else {
      MsbBitAt(v / 2, n - 1, k);
      HighHalf(v, n - 1 - k);
    }
  }

  lemma HighHalf(v: nat, n: nat)
    requires n > 0
    ensures High(v, n) == High(v / 2, n - 1) && High(v, n) == High(v, n - 1) / 2
  {
    var p := Pow2(n - 1);
    hide Pow2, High, Low;
    TwoStepDivision(v, 2, p);
    TwoStepDivision(v, p, 2);
    HighIs(v, n);
    HighIs(v, n - 1);
    HighIs(v / 2, n - 1);
    Pow2Step(n);
  }

  lemma HighIs(v: nat, n: nat)
    ensures High(v, n) == v / Pow2(n)
  {
  }

  lemma DecodeStep(s: BitString, p: nat, ls: Lengths, len: nat, code: nat, first: nat)
    requires 1 <= len && first <= code
    ensures len > MAX_BITS || p >= |s| ==> DecodeFrom(s, p, ls, len, code, first) == None
    ensures len <= MAX_BITS && p < |s| ==>
              var c := code + s[p];
              DecodeFrom(s, p, ls, len, code, first) ==
                if c - first < Count(ls, len) then Some((NthIn(ls, |ls|, len, c - first), p + 1))
                else DecodeFrom(s, p + 1, ls, len + 1, 2 * c, 2 * (first + Count(ls, len)))
  {
    hide Count;
  }

  /** The state of the search after `k` bits of the code of `sym`, and from there to the end. */
  lemma {:induction false} DecodeCodeFrom(s: BitString, p: nat, ls: Lengths, sym: nat, k: nat)
    requires Used(ls, sym) && 1 <= k <= ls[sym]
    requires At(s, p, CodeBits(ls, sym))
    requires FirstCode(ls, k) <= 2 * High(Code(ls, sym), ls[sym] - k + 1)
    ensures DecodeFrom(s, p + k - 1, ls, k, 2 * High(Code(ls, sym), ls[sym] - k + 1), FirstCode(ls, k))
            == Some((sym, p + ls[sym]))
    decreases ls[sym] - k
  {
    hide FirstCode, High, CountIn, DecodeFrom, CodeBits, Code, NthIn;
    var n, v := ls[sym], Code(ls, sym);
    NextBit(s, p, ls, sym, k);
    var c := 2 * High(v, n - k + 1) + s[p + k - 1];
    DecodeStep(s, p + k - 1, ls, k, 2 * High(v, n - k + 1), FirstCode(ls, k));
    if k == n {
      LastBit(ls, sym);
    } else {
      PrefixIsNoCode(ls, sym, k);
      NextFirst(ls, k + 1);
      DecodeCodeFrom(s, p, ls, sym, k + 1);
    }
  }

  lemma NextBit(s: BitString, p: nat, ls: Lengths, sym: nat, k: nat)
    requires Used(ls, sym) && 1 <= k <= ls[sym] && At(s, p, CodeBits(ls, sym))
    ensures p + k - 1 < |s| && 2 * High(Code(ls, sym), ls[sym] - k + 1) + s[p + k - 1]
            == High(Code(ls, sym), ls[sym] - k)
  {
    hide MsbBits, High, Code;
    var n, v := ls[sym], Code(ls, sym);
    assert s[p + k - 1] == s[p..p + n][k - 1] == MsbBits(v, n)[k - 1];
    MsbBitAt(v, n, k - 1);
    HighHalf(v, n - k + 1);
  }

  lemma LastBit(ls: Lengths, sym: nat)
    requires Used(ls, sym)
    ensures var n := ls[sym]; var r := High(Code(ls, sym), 0) - FirstCode(ls, n);
            0 <= r < Count(ls, n) && NthIn(ls, |ls|, n, r) == sym
  {
    hide FirstCode, High, CountIn, NthIn;
    HighZero(Code(ls, sym));
    CountStrict(ls, sym, |ls|);
    RankUnique(ls, sym, NthIn(ls, |ls|, ls[sym], CountIn(ls, sym, ls[sym])));
  }

  lemma {:induction false} HighAll(v: nat, n: nat)
    requires v < Pow2(n)
    ensures High(v, n) == 0
  {
    DivUnique(v, Pow2(n), 0, v);
  }

  /**
   The code of a used symbol, followed by anything, decodes to that symbol, and exactly its bits are consumed.
   The code fits in its length because the lengths are not over-subscribed.
   */
  lemma DecodeCode(s: BitString, p: nat, ls: Lengths, sym: nat)
    requires NotOversubscribed(ls) && Used(ls, sym) && At(s, p, CodeBits(ls, sym))
    ensures DecodeSymbol(s, p, ls) == Some((sym, p + ls[sym]))
  {
    CodesFit(ls, ls[sym]);
    CountStrict(ls, sym, |ls|);
    HighAll(Code(ls, sym), ls[sym]);
    DecodeCodeFrom(s, p, ls, sym, 1);
  }

  lemma MsbAppend(code: nat, b: bit, len: nat)
    requires code % 2 == 0 && len >= 1
    ensures MsbBits(code + b, len) == MsbBits(code / 2, len - 1) + [b]
  {
  }

  lemma EvenHalf(c: nat)
    ensures 2 * c % 2 == 0 && 2 * c / 2 == c
  {
  }

  lemma DecodedHere(ls: Lengths, len: nat, c: nat, first: nat)
    requires len >= 1 && first == FirstCode(ls, len) <= c && c - first < Count(ls, len)
    ensures var sym := NthIn(ls, |ls|, len, c - first);
            Used(ls, sym) && ls[sym] == len && CodeBits(ls, sym) == MsbBits(c, len)
  {
    hide FirstCode, CountIn, MsbBits;
  }

  /** Conversely, whatever decodes was the code of the symbol it decodes to, over-subscribed or not. */
  lemma {:induction false} DecodedFrom(s: BitString, p: nat, ls: Lengths, len: nat, code: nat, first: nat, start: nat)
    requires 1 <= len && start + len - 1 == p <= |s| && first == FirstCode(ls, len) <= code
    requires code % 2 == 0 && s[start..p] == MsbBits(code / 2, len - 1)
    requires DecodeFrom(s, p, ls, len, code, first).Some?
    ensures var (sym, q) := DecodeFrom(s, p, ls, len, code, first).value;
            Used(ls, sym) && q == start + ls[sym] && s[start..q] == CodeBits(ls, sym)
    decreases 16 - len
  {
    hide FirstCode, CountIn, MsbBits, NthIn, CodeBits, DecodeFrom;
    DecodeStep(s, p, ls, len, code, first);
    var c := code + s[p];
    MsbAppend(code, s[p], len);
    assert s[start..p + 1] == s[start..p] + [s[p]];
    if c - first < Count(ls, len) {
      DecodedHere(ls, len, c, first);
    } else {
      NextFirst(ls, len + 1);
      EvenHalf(c);
      DecodedFrom(s, p + 1, ls, len + 1, 2 * c, 2 * (first + Count(ls, len)), start);
    }
  }

  /** Decoding is exactly prefix matching: a symbol comes out if and only if its code comes next. */
  lemma DecodeIsPrefixMatch(s: BitString, p: nat, ls: Lengths, sym: nat)
    requires NotOversubscribed(ls) && p <= |s| && Used(ls, sym)
    ensures At(s, p, CodeBits(ls, sym)) <==> DecodeSymbol(s, p, ls) == Some((sym, p + ls[sym]))
  {
    if At(s, p, CodeBits(ls, sym)) {
      DecodeCode(s, p, ls, sym);
    }
    if DecodeSymbol(s, p, ls).Some? {
      DecodedFrom(s, p, ls, 1, 0, 0, p);
    }
  }

  /** So no code is a prefix of another. */
  lemma PrefixFree(ls: Lengths, a: nat, b: nat)
    requires NotOversubscribed(ls) && Used(ls, a) && Used(ls, b) && At(CodeBits(ls, b), 0, CodeBits(ls, a))
    ensures a == b
  {
    var s := CodeBits(ls, b);
    DecodeCode(s, 0, ls, a);
    DecodeCode(s, 0, ls, b);
  }
}
