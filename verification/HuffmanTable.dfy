/** The count/offset tables of kernel/src/inflate.rs: built by `construct`, searched by `decode`. */
module HuffmanTable {
  import opened Common
  import opened Bits
  import opened BitReaders
  import opened HuffmanCode

  /** `count[l]` codes have length `l`; `symbol` lists the used symbols by length, then by number. */
  datatype Huffman = Huffman(count: seq<nat>, symbol: seq<nat>)

  /** Where the symbols of length `l` start, counting only the first `n` symbols. */
  function Offset(ls: Lengths, n: nat, l: nat): nat
    requires n <= |ls|
  {
    if l <= 1 then 0 else Offset(ls, n, l - 1) + CountIn(ls, n, l - 1)
  }

  /** Where symbol `i` belongs. */
  function Slot(ls: Lengths, i: nat): nat
    requires Used(ls, i)
  {
    Offset(ls, |ls|, ls[i]) + CountIn(ls, i, ls[i])
  }

  ghost predicate Represents(h: Huffman, ls: Lengths)
  {
    && |h.count| == MAX_BITS + 1
    && h.count[0] == 0
    && (forall l :: 1 <= l <= MAX_BITS ==> h.count[l] == Count(ls, l))
    && |h.symbol| == |ls|
    && Placed(h.symbol, ls, |ls|)
  }

  lemma {:induction false} OffsetGrows(ls: Lengths, n: nat, l: nat)
    requires n < |ls| && l <= MAX_BITS + 1
    ensures Offset(ls, n + 1, l) == Offset(ls, n, l) + (if 1 <= ls[n] < l then 1 else 0)
  {
    if l > 1 {
      OffsetGrows(ls, n, l - 1);
    }
  }

  lemma {:induction false} OffsetBound(ls: Lengths, n: nat)
    requires n <= |ls|
    ensures Offset(ls, n, MAX_BITS + 1) <= n
  {
    if n == 0 {
      OffsetEmpty(ls, MAX_BITS + 1);
    } else {
      OffsetBound(ls, n - 1);
      OffsetGrows(ls, n - 1, MAX_BITS + 1);
    }
  }

  lemma {:induction false} OffsetEmpty(ls: Lengths, l: nat)
    ensures Offset(ls, 0, l) == 0
  {
    if l > 1 {
      OffsetEmpty(ls, l - 1);
    }
  }

  lemma {:induction false} OffsetMonotone(ls: Lengths, k: nat, l: nat)
    requires 1 <= k < l
    ensures Offset(ls, |ls|, k) + Count(ls, k) <= Offset(ls, |ls|, l)
  {
    if k < l - 1 {
      OffsetMonotone(ls, k, l - 1);
    }
  }

  /** The slots of used symbols are in range and pairwise different. */
  lemma SlotInRange(ls: Lengths, i: nat)
    requires Used(ls, i)
    ensures Slot(ls, i) < Offset(ls, |ls|, ls[i]) + Count(ls, ls[i]) <= |ls|
  {
    CountStrict(ls, i, |ls|);
    OffsetBound(ls, |ls|);
    if ls[i] < MAX_BITS {
      OffsetMonotone(ls, ls[i], MAX_BITS + 1);
    }
  }

  lemma SlotsDiffer(ls: Lengths, i: nat, j: nat)
    requires Used(ls, i) && Used(ls, j) && i < j
    ensures Slot(ls, i) != Slot(ls, j)
  {
    SlotInRange(ls, i);
    SlotInRange(ls, j);
    if ls[i] == ls[j] {
      CountStrict(ls, i, j);
      CountMonotone(ls, i, j, ls[i]);
    } else if ls[i] < ls[j] {
      OffsetMonotone(ls, ls[i], ls[j]);
    } else {
      OffsetMonotone(ls, ls[j], ls[i]);
    }
  }

  // `construct`, one loop at a time.

  method CountLengths(ls: Lengths) returns (count: array<nat>)
    ensures fresh(count) && count.Length == MAX_BITS + 1 && count[0] == 0
    ensures forall l :: 1 <= l <= MAX_BITS ==> count[l] == Count(ls, l)
  {
    count := new nat[MAX_BITS + 1](_ => 0);
    var n := 0;
    while n < |ls|
      invariant n <= |ls|
      invariant forall l :: 0 <= l <= MAX_BITS ==> count[l] == CountIn(ls, n, l)
    {
      count[ls[n]] := count[ls[n]] + 1;
      n := n + 1;
    }
    count[0] := 0;
  }

  method StartOffsets(ls: Lengths, count: array<nat>) returns (offsets: array<nat>)
    requires count.Length == MAX_BITS + 1 && forall l :: 1 <= l <= MAX_BITS ==> count[l] == Count(ls, l)
    ensures fresh(offsets) && offsets.Length == MAX_BITS + 2
    ensures forall l :: 1 <= l <= MAX_BITS + 1 ==> offsets[l] == Offset(ls, |ls|, l)
  {
    hide CountIn;
    offsets := new nat[MAX_BITS + 2](_ => 0);
    var len := 1;
    while len <= MAX_BITS
      invariant 1 <= len <= MAX_BITS + 1
      invariant forall l :: 1 <= l <= len ==> offsets[l] == Offset(ls, |ls|, l)
    {
      offsets[len + 1] := offsets[len] + count[len];
      len := len + 1;
    }
  }

  /** The symbols below `n` stand in their slots. */
  ghost predicate Placed(symbol: seq<nat>, ls: Lengths, n: nat)
  {
    forall i: nat :: i < n && Used(ls, i) ==> Slot(ls, i) < |symbol| && symbol[Slot(ls, i)] == i
  }

  lemma PlaceOne(symbol: seq<nat>, ls: Lengths, sym: nat)
    requires Placed(symbol, ls, sym) && Used(ls, sym) && |symbol| == |ls|
    ensures Slot(ls, sym) < |symbol| && Placed(symbol[Slot(ls, sym) := sym], ls, sym + 1)
  {
    SlotInRange(ls, sym);
    hide Slot;
    forall i: nat | i < sym && Used(ls, i) ensures Slot(ls, i) != Slot(ls, sym) { SlotsDiffer(ls, i, sym); }
  }

  method PlaceSymbols(ls: Lengths, offsets: array<nat>) returns (symbol: array<nat>)
    requires offsets.Length == MAX_BITS + 2 && forall l :: 1 <= l <= MAX_BITS + 1 ==> offsets[l] == Offset(ls, |ls|, l)
    modifies offsets
    ensures fresh(symbol) && symbol.Length == |ls| && Placed(symbol[..], ls, |ls|)
  {
    hide Offset, Placed;
    symbol := new nat[|ls|](_ => 0);
    NonePlaced(symbol[..], ls);
    var sym: nat := 0;
    while sym < |ls|
      invariant sym <= |ls|
      invariant forall l :: 1 <= l <= MAX_BITS ==> offsets[l] == Offset(ls, |ls|, l) + CountIn(ls, sym, l)
      invariant Placed(symbol[..], ls, sym)
    {
      var l := ls[sym];
      ghost var before := symbol[..];
      if l != 0 {
        PlaceOne(before, ls, sym);
        symbol[offsets[l]] := sym;
        assert symbol[..] == before[Slot(ls, sym) := sym];
        offsets[l] := offsets[l] + 1;
      } else {
        UnusedPlaced(before, ls, sym);
      }
      sym := sym + 1;
    }
  }

  lemma NonePlaced(symbol: seq<nat>, ls: Lengths)
    ensures Placed(symbol, ls, 0)
  {
  }

  lemma UnusedPlaced(symbol: seq<nat>, ls: Lengths, sym: nat)
    requires Placed(symbol, ls, sym) && !Used(ls, sym)
    ensures Placed(symbol, ls, sym + 1)
  {
  }

  method Construct(ls: Lengths) returns (h: Huffman)
    ensures Represents(h, ls)
  {
    hide CountIn, Offset;
    var count := CountLengths(ls);
    ghost var counts := count[..];
    var offsets := StartOffsets(ls, count);
    var symbol := PlaceSymbols(ls, offsets);
    assert count[..] == counts;
    h := Huffman(count[..], symbol[..]);
  }

  /** The table holds the `r`-th symbol of length `len` at offset `r` from where that length starts. */
  lemma SymbolAt(h: Huffman, ls: Lengths, len: nat, r: nat)
    requires Represents(h, ls) && 1 <= len <= MAX_BITS && r < Count(ls, len)
    ensures Offset(ls, |ls|, len) + r < |h.symbol| && h.symbol[Offset(ls, |ls|, len) + r] == NthIn(ls, |ls|, len, r)
  {
    hide Offset, CountIn;
    var sym := NthIn(ls, |ls|, len, r);
    assert Slot(ls, sym) == Offset(ls, |ls|, len) + r;
  }

  /** The running-index search of `decode`, on the table alone, finds what the search of the codes finds. */
  method Decode(reader: BitReader, h: Huffman, ghost ls: Lengths) returns (r: Option<nat>)
    requires reader.Valid() && Represents(h, ls)
    modifies reader
    ensures var spec := DecodeSymbol(reader.Input(), old(reader.Pos()), ls);
            if spec == None then r == None
            else r == Some(spec.value.0) && reader.Valid() && reader.Pos() == spec.value.1
  {
    hide CountIn, NthIn, Value, Pow2, BitsOf, Low, High, DecodeFrom;
    var code: nat, first: nat, index: nat, len: nat := 0, 0, 0, 1;
    ghost var s, start := reader.Input(), reader.Pos();
    while len <= MAX_BITS
      invariant 1 <= len <= MAX_BITS + 1 && reader.Valid()
      invariant first <= code && index == Offset(ls, |ls|, len)
      invariant DecodeFrom(s, reader.Pos(), ls, len, code, first) == DecodeSymbol(s, start, ls)
    {
      DecodeStep(s, reader.Pos(), ls, len, code, first);
      var b := reader.TakeBits(1);
      if b == None {
        return None;
      }
      OneBit(s, reader.Pos() - 1);
      code := code + b.value;
      var count := h.count[len];
      if code - first < count {
        SymbolAt(h, ls, len, code - first);
        return Some(h.symbol[index + (code - first)]);
      }
      index := index + count;
      first := 2 * (first + count);
      code := 2 * code;
      len := len + 1;
    }
    DecodeStep(s, reader.Pos(), ls, len, code, first);
    return None;
  }

  lemma OneBit(s: BitString, p: nat)
    requires p < |s|
    ensures ReadBits(s, p, 1) == Some(s[p])
  {
    assert s[p..p + 1] == [s[p]];
    assert Value([s[p]]) == s[p] + 2 * Value([s[p]][1..]);
  }
}
