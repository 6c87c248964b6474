/** Bit strings in the packing order of RFC 1951 section 3.1.1: least significant bit of each byte first. */
module Bits {
  import opened Common

  type bit = x: int | 0 <= x < 2
  type BitString = seq<bit>

  /** The number a field holds, least significant bit first. */
  function Value(s: BitString): (v: nat)
    ensures v < Pow2(|s|)
  {
    if s == [] then 0 else s[0] + 2 * Value(s[1..])
  }

  /** The `n` low bits of `v`, least significant first. */
  function LsbBits(v: nat, n: nat): (s: BitString)
    ensures |s| == n
  {
    if n == 0 then [] else [v % 2] + LsbBits(v / 2, n - 1)
  }

  function BitsOf(data: Bytes): (s: BitString)
    ensures |s| == 8 * |data|
  {
    if data == [] then [] else LsbBits(data[0], 8) + BitsOf(data[1..])
  }

  /** The field of `n` bits at `p`, if the input has that many left. */
  function ReadBits(s: BitString, p: nat, n: nat): (r: Option<nat>)
    ensures r.Some? ==> r.value < Pow2(n)
  {
    if p + n <= |s| then Some(Value(s[p..p + n])) else None
  }

  /** `bs` stands in `s` at `p`. */
  predicate At(s: BitString, p: nat, bs: BitString) { p + |bs| <= |s| && s[p..p + |bs|] == bs }

  lemma AtParts(s: BitString, p: nat, a: BitString, b: BitString)
    requires At(s, p, a + b)
    ensures At(s, p, a) && At(s, p + |a|, b)
  {
    var whole := s[p..p + |a + b|];
    assert s[p..p + |a|] == whole[..|a|];
    assert s[p + |a|..p + |a| + |b|] == whole[|a|..];
  }

  lemma {:induction false} ValueLsbBits(v: nat, n: nat)
    requires v < Pow2(n)
    ensures Value(LsbBits(v, n)) == v
  {
    if n > 0 {
      ValueLsbBits(v / 2, n - 1);
      assert LsbBits(v, n)[1..] == LsbBits(v / 2, n - 1);
    }
  }

  /** A field written at `p` is read back. */
  lemma ReadField(s: BitString, p: nat, v: nat, n: nat)
    requires At(s, p, LsbBits(v, n)) && v < Pow2(n)
    ensures ReadBits(s, p, n) == Some(v)
  {
    ValueLsbBits(v, n);
  }

  lemma {:induction false} ValueConcat(a: BitString, b: BitString)
    ensures Value(a + b) == Value(a) + Pow2(|a|) * Value(b)
  {
    if a == [] {
      assert a + b == b;
    } else {
      ValueConcat(a[1..], b);
      assert (a + b)[1..] == a[1..] + b;
      hide Value;
      MulAssoc(2, Pow2(|a| - 1), Value(b));
      ValueHead(a);
      ValueHead(a + b);
    }
  }

  lemma ValueHead(s: BitString)
    requires s != []
    ensures Value(s) == s[0] + 2 * Value(s[1..])
  {
  }

  /** The low `n` bits of a field and what stays after they are shifted out. */
  lemma ValueSplit(s: BitString, n: nat)
    requires n <= |s|
    ensures Low(Value(s), n) == Value(s[..n]) && High(Value(s), n) == Value(s[n..]) <= Value(s)
  {
    hide Value, Pow2, Low, High;
    assert s == s[..n] + s[n..];
    ValueConcat(s[..n], s[n..]);
    LowHigh(Value(s), n, Value(s[n..]), Value(s[..n]));
  }

  /** The bits of the byte at `k`. */
  lemma {:induction false} ByteBits(data: Bytes, k: nat)
    requires k < |data|
    ensures BitsOf(data)[8 * k..8 * k + 8] == LsbBits(data[k], 8)
    ensures Value(BitsOf(data)[8 * k..8 * k + 8]) == data[k]
  {
    if k == 0 {
      assert BitsOf(data)[0..8] == LsbBits(data[0], 8);
    } else {
      ByteBits(data[1..], k - 1);
      assert BitsOf(data)[8 * k..8 * k + 8] == BitsOf(data[1..])[8 * (k - 1)..8 * (k - 1) + 8];
    }
    assert Pow2(8) == 256;
    ValueLsbBits(data[k], 8);
  }

  /** Bytes read back from byte-aligned bits. */
  function BytesAt(s: BitString, p: nat, n: nat): (bs: Bytes)
    requires p + 8 * n <= |s|
    ensures |bs| == n
    decreases n
  {
    if n == 0 then [] else assert Pow2(8) == 256; [Value(s[p..p + 8])] + BytesAt(s, p + 8, n - 1)
  }

  lemma {:induction false} BytesAtData(data: Bytes, k: nat, n: nat)
    requires k + n <= |data|
    ensures BytesAt(BitsOf(data), 8 * k, n) == data[k..k + n]
    decreases n
  {
    if n > 0 {
      ByteBits(data, k);
      BytesAtData(data, k + 1, n - 1);
      hide BitsOf, Value;
      assert data[k..k + n] == [data[k]] + data[k + 1..k + n];
    }
  }

  lemma {:induction false} BytesAtBits(s: BitString, p: nat, bs: Bytes)
    requires At(s, p, BitsOf(bs))
    ensures BytesAt(s, p, |bs|) == bs
    decreases |bs|
  {
    if bs != [] {
      AtParts(s, p, LsbBits(bs[0], 8), BitsOf(bs[1..]));
      assert Pow2(8) == 256;
      ReadField(s, p, bs[0], 8);
      BytesAtBits(s, p + 8, bs[1..]);
    }
  }

  /** Bits packed into bytes, the last one filled up with zeros. */
  function Pack(s: BitString): Bytes
  {
    if s == [] then []
    else
      assert Pow2(8) == 256;
      var n := if |s| < 8 then |s| else 8;
      assert Value(s[..n]) < 256 by { Pow2Mono(n, 8); }
      [Value(s[..n])] + Pack(s[n..])
  }

  lemma {:induction false} LsbBitsValue(s: BitString, n: nat)
    requires |s| <= n
    ensures LsbBits(Value(s), n)[..|s|] == s
  {
    if s != [] {
      LsbBitsValue(s[1..], n - 1);
      assert Value(s) % 2 == s[0] && Value(s) / 2 == Value(s[1..]);
      assert LsbBits(Value(s), n) == [s[0]] + LsbBits(Value(s[1..]), n - 1);
      assert LsbBits(Value(s), n)[..|s|] == [s[0]] + LsbBits(Value(s[1..]), n - 1)[..|s| - 1];
    }
  }

  lemma {:induction false} PackStarts(s: BitString)
    ensures At(BitsOf(Pack(s)), 0, s)
  {
    if s != [] {
      var n := if |s| < 8 then |s| else 8;
      PackStarts(s[n..]);
      LsbBitsValue(s[..n], 8);
      PackHead(s, n);
      hide Pack, BitsOf, LsbBits, Value;
      var rest := BitsOf(Pack(s[n..]));
      if n < 8 {
        assert s[..n] == s;
      } else {
        assert s == s[..8] + s[8..];
        assert rest[..|s| - 8] == s[8..];
      }
    }
  }

  lemma PackHead(s: BitString, n: nat)
    requires s != [] && n == if |s| < 8 then |s| else 8
    ensures BitsOf(Pack(s)) == LsbBits(Value(s[..n]), 8) + BitsOf(Pack(s[n..]))
  {
    hide LsbBits, Value;
    assert Pack(s)[1..] == Pack(s[n..]);
  }
}
