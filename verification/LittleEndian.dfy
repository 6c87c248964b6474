/** Little-endian numbers, and fields of records laid out one after the other. */
module LittleEndian {
  import opened Common

  /** A little-endian number. */
  function Le(bs: Bytes): (v: nat)
    ensures v < Pow2(8 * |bs|)
  {
    if bs == [] then 0
    else
      assert Pow2(8 * |bs|) == 256 * Pow2(8 * (|bs| - 1)) by { Pow2Add(8, 8 * (|bs| - 1)); assert Pow2(8) == 256; }
      bs[0] + 256 * Le(bs[1..])
  }

  lemma {:induction false} LeConcat(a: Bytes, b: Bytes)
    ensures Le(a + b) == Le(a) + Pow2(8 * |a|) * Le(b)
  {
    if a == [] {
      assert a + b == b && Pow2(0) == 1;
    } else {
      LeConcat(a[1..], b);
      assert (a + b)[1..] == a[1..] + b;
      LeHead(a);
      LeHead(a + b);
      Pow2Add(8, 8 * (|a| - 1));
      assert Pow2(8) == 256;
      hide Le, Pow2;
      MulAssoc(256, Pow2(8 * (|a| - 1)), Le(b));
    }
  }

  lemma LeHead(bs: Bytes)
    requires bs != []
    ensures Le(bs) == bs[0] + 256 * Le(bs[1..])
  {
  }

  /** The `n` low little-endian bytes of a number. */
  function ToLe(v: nat, n: nat): (bs: Bytes)
    ensures |bs| == n
  {
    if n == 0 then [] else [v % 256] + ToLe(v / 256, n - 1)
  }

  lemma {:induction false} LeToLe(v: nat, n: nat)
    requires v < Pow2(8 * n)
    ensures Le(ToLe(v, n)) == v
  {
    if n > 0 {
      Pow2Add(8, 8 * (n - 1));
      assert Pow2(8) == 256;
      LeToLe(v / 256, n - 1);
      assert ToLe(v, n)[1..] == ToLe(v / 256, n - 1);
    }
  }

  /** Bytes are those of the number they make. */
  lemma {:induction false} ToLeLe(bs: Bytes)
    ensures ToLe(Le(bs), |bs|) == bs
  {
    if bs != [] {
      ToLeLe(bs[1..]);
      LeHead(bs);
      assert bs == [bs[0]] + bs[1..];
    }
  }

  /** Writing `n` bytes keeps what fits in them. */
  lemma {:induction false} ToLeLow(v: nat, n: nat)
    ensures ToLe(v, n) == ToLe(v % Pow2(8 * n), n)
  {
    hide Pow2;
    if n > 0 {
      var m := Pow2(8 * (n - 1));
      Pow2Add(8, 8 * (n - 1));
      Pow2Of8();
      ToLeLow(v / 256, n - 1);
      LowDigits(v, m);
    }
  }

  lemma LowDigits(v: nat, m: nat)
    requires m > 0
    ensures 256 * m > 0 && v % (256 * m) % 256 == v % 256 && v % (256 * m) / 256 == v / 256 % m
  {
    var q, r := v / 256 / m, v / 256 % m;
    assert v == 256 * (v / 256) + v % 256 && v / 256 == q * m + r;
    MulAssoc(256, m, q);
    DivUnique(v, 256 * m, q, 256 * r + v % 256);
    DivUnique(256 * r + v % 256, 256, r, v % 256);
  }

  /** Zero bytes at the end do not change a little-endian number. */
  lemma {:induction false} LePad(a: Bytes, n: nat)
    ensures Le(a + seq(n, _ => 0)) == Le(a)
  {
    LeConcat(a, seq(n, _ => 0));
    LeZeros(n);
  }

  lemma {:induction false} LeZeros(n: nat)
    ensures Le(seq(n, _ => 0)) == 0
  {
    if n > 0 {
      LeZeros(n - 1);
      var zeros: Bytes := seq(n, _ => 0);
      assert zeros[1..] == seq(n - 1, _ => 0);
    }
  }

  // ---- records ----

  /** `data.get(at..at + n)` */
  function Slice(data: Bytes, at: nat, n: nat): Option<Bytes> {
    if at + n <= |data| then Some(data[at..at + n]) else None
  }

  /** The little-endian number in `n` bytes at `at`. */
  function ReadLe(data: Bytes, at: nat, n: nat): Option<nat> {
    if at + n <= |data| then Some(Le(data[at..at + n])) else None
  }

  /** Fields one after the other. */
  function Cat(fields: seq<Bytes>): Bytes {
    if fields == [] then [] else fields[0] + Cat(fields[1..])
  }

  /** How many bytes the first `i` fields take. */
  function Width(fields: seq<Bytes>, i: nat): nat
    requires i <= |fields|
  {
    if i == 0 then 0 else Width(fields, i - 1) + |fields[i - 1]|
  }

  lemma {:induction false} WidthTail(fields: seq<Bytes>, i: nat)
    requires 0 < i <= |fields|
    ensures Width(fields, i) == |fields[0]| + Width(fields[1..], i - 1)
  {
    if i > 1 {
      WidthTail(fields, i - 1);
    }
  }

  lemma {:induction false} CatWidth(fields: seq<Bytes>)
    ensures |Cat(fields)| == Width(fields, |fields|)
  {
    if fields != [] {
      CatWidth(fields[1..]);
      WidthTail(fields, |fields|);
    }
  }

  /** A field lies where the widths of those before it say, whatever surrounds the record. */
  lemma {:induction false} FieldAt(pre: Bytes, fields: seq<Bytes>, post: Bytes, i: nat)
    requires i < |fields|
    ensures Slice(pre + Cat(fields) + post, |pre| + Width(fields, i), |fields[i]|) == Some(fields[i])
    decreases i
  {
    var head, rest := fields[0], Cat(fields[1..]);
    if i == 0 {
      assert pre + (head + rest) + post == pre + head + (rest + post);
      hide Cat;
      assert (pre + head + (rest + post))[|pre|..|pre| + |head|] == head;
    } else {
      FieldAt(pre + head, fields[1..], post, i - 1);
      WidthTail(fields, i);
      assert pre + (head + rest) + post == (pre + head) + rest + post;
    }
  }

  /** A number written in a field is read back, if it fits. */
  lemma NumberAt(pre: Bytes, fields: seq<Bytes>, post: Bytes, i: nat, v: nat, n: nat)
    requires i < |fields| && fields[i] == ToLe(v, n) && v < Pow2(8 * n)
    ensures ReadLe(pre + Cat(fields) + post, |pre| + Width(fields, i), n) == Some(v)
  {
    hide Cat, Width, Le, ToLe, Pow2;
    FieldAt(pre, fields, post, i);
    LeToLe(v, n);
  }

  /** Fields that stand one after the other make up the record. */
  lemma {:induction false} FieldsStand(d: Bytes, o: nat, fields: seq<Bytes>)
    requires o + Width(fields, |fields|) <= |d|
    requires forall i :: 0 <= i < |fields| ==> Slice(d, o + Width(fields, i), |fields[i]|) == Some(fields[i])
    ensures Slice(d, o, |Cat(fields)|) == Some(Cat(fields))
    decreases |fields|
  {
    hide Cat, Width;
    CatHead(fields);
    if fields != [] {
      var head, rest := fields[0], fields[1..];
      WidthTail(fields, |fields|);
      forall i | 0 <= i < |rest| ensures Slice(d, o + |head| + Width(rest, i), |rest[i]|) == Some(rest[i]) {
        WidthTail(fields, i + 1);
        assert Slice(d, o + Width(fields, i + 1), |fields[i + 1]|) == Some(fields[i + 1]);
      }
      FieldsStand(d, o + |head|, rest);
      assert Slice(d, o + Width(fields, 0), |head|) == Some(head);
      JoinSlices(d, o, head, Cat(rest));
    } else {
      assert d[o..o] == [];
    }
  }

  lemma CatHead(fields: seq<Bytes>)
    ensures Width(fields, 0) == 0
    ensures Cat(fields) == if fields == [] then [] else fields[0] + Cat(fields[1..])
  {
  }

  lemma JoinSlices(d: Bytes, o: nat, a: Bytes, b: Bytes)
    requires Slice(d, o, |a|) == Some(a) && Slice(d, o + |a|, |b|) == Some(b)
    ensures Slice(d, o, |a + b|) == Some(a + b)
  {
    assert d[o..o + |a|] + d[o + |a|..o + |a| + |b|] == d[o..o + |a| + |b|];
  }

  /** Any bytes are the number they make, written out. */
  lemma NumberStands(d: Bytes, o: nat, n: nat)
    requires o + n <= |d|
    ensures Slice(d, o, n) == Some(ToLe(Le(d[o..o + n]), n))
    ensures n == 2 ==> Le(d[o..o + n]) < 0x1_0000
    ensures n == 4 ==> Le(d[o..o + n]) < TWO_32
  {
    hide Le, Pow2, ToLe;
    ToLeLe(d[o..o + n]);
    WordBounds();
  }

  /** Of a number written in two or in four bytes, the low ones are read back. */
  lemma ShortAt(pre: Bytes, fields: seq<Bytes>, post: Bytes, i: nat, v: nat)
    requires i < |fields| && fields[i] == ToLe(v, 2)
    ensures ReadLe(pre + Cat(fields) + post, |pre| + Width(fields, i), 2) == Some(v % 0x1_0000)
  {
    hide Cat, Width, Le, ToLe, Pow2, ReadLe;
    WordBounds();
    ToLeLow(v, 2);
    NumberAt(pre, fields, post, i, v % 0x1_0000, 2);
  }

  lemma LongAt(pre: Bytes, fields: seq<Bytes>, post: Bytes, i: nat, v: nat)
    requires i < |fields| && fields[i] == ToLe(v, 4)
    ensures ReadLe(pre + Cat(fields) + post, |pre| + Width(fields, i), 4) == Some(v % TWO_32)
  {
    hide Cat, Width, Le, ToLe, Pow2, ReadLe;
    WordBounds();
    ToLeLow(v, 4);
    NumberAt(pre, fields, post, i, v % TWO_32, 4);
  }

  /** Numbers of two and of four bytes. */
  lemma WordBounds()
    ensures Pow2(8 * 2) == 0x1_0000 && Pow2(8 * 4) == TWO_32
  {
    Pow2Of24();
    Pow2Of64();
  }
}
