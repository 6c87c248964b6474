/** What the reader of kernel/src/apk.rs finds in an archive any program may have written. */
module ZipReading {
  import opened Common
  import opened LittleEndian
  import opened Zip
  import Bits
  import Deflate
  import DeflateRoundTrip

  // ---- where the fields are ----

  lemma LocalWidths(h: LocalHeader)
    ensures var w := LocalFields(h);
            && |w| == 13 && Width(w, 0) == 0 && Width(w, 1) == 4 && Width(w, 2) == 6 && Width(w, 3) == 8
            && Width(w, 4) == 10 && Width(w, 5) == 12 && Width(w, 6) == 14 && Width(w, 7) == 18 && Width(w, 8) == 22
            && Width(w, 9) == 26 && Width(w, 10) == 28 && Width(w, 11) == 30 && Width(w, 12) == 30 + |h.name|
    ensures |Cat(LocalFields(h))| == 30 + |h.name| + |h.extra|
  {
    hide Cat, ToLe;
    CatWidth(LocalFields(h));
  }

  lemma CentralWidths(h: CentralHeader)
    ensures var w := CentralFields(h);
            && |w| == 20 && Width(w, 0) == 0 && Width(w, 1) == 4 && Width(w, 2) == 6 && Width(w, 3) == 8
            && Width(w, 4) == 10 && Width(w, 5) == 12 && Width(w, 6) == 14 && Width(w, 7) == 16 && Width(w, 8) == 20
            && Width(w, 9) == 24 && Width(w, 10) == 28 && Width(w, 11) == 30 && Width(w, 12) == 32
            && Width(w, 13) == 34 && Width(w, 14) == 36 && Width(w, 15) == 38 && Width(w, 16) == 42
            && Width(w, 17) == 46 && Width(w, 18) == 46 + |h.name| && Width(w, 19) == 46 + |h.name| + |h.extra|
    ensures |Cat(CentralFields(h))| == 46 + |h.name| + |h.extra| + |h.comment|
  {
    hide Cat, ToLe;
    CatWidth(CentralFields(h));
  }

  lemma EndWidths(e: EndRecord)
    ensures var w := EndFields(e);
            && |w| == 9 && Width(w, 0) == 0 && Width(w, 1) == 4 && Width(w, 2) == 6 && Width(w, 3) == 8
            && Width(w, 4) == 10 && Width(w, 5) == 12 && Width(w, 6) == 16 && Width(w, 7) == 20 && Width(w, 8) == 22
    ensures |Cat(EndFields(e))| == 22 + |e.comment|
  {
    hide Cat, ToLe;
    CatWidth(EndFields(e));
  }

  /** Every field of a local header is read at its offset (section 4.3.7 of the ZIP application note). */
  lemma LocalLayout(pre: Bytes, h: LocalHeader, post: Bytes)
    ensures var d := pre + Cat(LocalFields(h)) + post; var o := |pre|;
            && ReadLe(d, o, 4) == Some(0x0403_4B50)
            && ReadLe(d, o + 4, 2) == Some(h.version % 0x1_0000) && ReadLe(d, o + 6, 2) == Some(h.flags % 0x1_0000)
            && ReadLe(d, o + 8, 2) == Some(h.compression % 0x1_0000) && ReadLe(d, o + 10, 2) == Some(h.time % 0x1_0000)
            && ReadLe(d, o + 12, 2) == Some(h.date % 0x1_0000) && ReadLe(d, o + 14, 4) == Some(h.crc % TWO_32)
            && ReadLe(d, o + 18, 4) == Some(h.compressedSize % TWO_32) && ReadLe(d, o + 22, 4) == Some(h.size % TWO_32)
            && ReadLe(d, o + 26, 2) == Some(|h.name| % 0x1_0000) && ReadLe(d, o + 28, 2) == Some(|h.extra| % 0x1_0000)
            && Slice(d, o + 30, |h.name|) == Some(h.name) && Slice(d, o + 30 + |h.name|, |h.extra|) == Some(h.extra)
  {
    hide Cat, Width, ToLe, ReadLe, Slice;
    var w := LocalFields(h);
    LocalWidths(h);
    LongAt(pre, w, post, 0, LOCAL_FILE_SIGNATURE);
    ShortAt(pre, w, post, 1, h.version);
    ShortAt(pre, w, post, 2, h.flags);
    ShortAt(pre, w, post, 3, h.compression);
    ShortAt(pre, w, post, 4, h.time);
    ShortAt(pre, w, post, 5, h.date);
    LongAt(pre, w, post, 6, h.crc);
    LongAt(pre, w, post, 7, h.compressedSize);
    LongAt(pre, w, post, 8, h.size);
    ShortAt(pre, w, post, 9, |h.name|);
    ShortAt(pre, w, post, 10, |h.extra|);
    FieldAt(pre, w, post, 11);
    FieldAt(pre, w, post, 12);
  }

  /** Every field of a directory entry is read at its offset (section 4.3.12). */
  lemma CentralLayout(pre: Bytes, h: CentralHeader, post: Bytes)
    ensures var d := pre + Cat(CentralFields(h)) + post; var o := |pre|;
            && ReadLe(d, o, 4) == Some(0x0201_4B50) && ReadLe(d, o + 4, 2) == Some(h.madeBy % 0x1_0000)
            && ReadLe(d, o + 6, 2) == Some(h.version % 0x1_0000) && ReadLe(d, o + 8, 2) == Some(h.flags % 0x1_0000)
            && ReadLe(d, o + 10, 2) == Some(h.compression % 0x1_0000) && ReadLe(d, o + 12, 2) == Some(h.time % 0x1_0000)
            && ReadLe(d, o + 14, 2) == Some(h.date % 0x1_0000) && ReadLe(d, o + 16, 4) == Some(h.crc % TWO_32)
  {
    hide Cat, Width, ToLe, ReadLe;
    var w := CentralFields(h);
    CentralWidths(h);
    LongAt(pre, w, post, 0, CENTRAL_DIR_SIGNATURE);
    ShortAt(pre, w, post, 1, h.madeBy);
    ShortAt(pre, w, post, 2, h.version);
    ShortAt(pre, w, post, 3, h.flags);
    ShortAt(pre, w, post, 4, h.compression);
    ShortAt(pre, w, post, 5, h.time);
    ShortAt(pre, w, post, 6, h.date);
    LongAt(pre, w, post, 7, h.crc);
  }

  lemma CentralLayoutOn(pre: Bytes, h: CentralHeader, post: Bytes)
    ensures var d := pre + Cat(CentralFields(h)) + post; var o := |pre|;
            && ReadLe(d, o + 20, 4) == Some(h.compressedSize % TWO_32) && ReadLe(d, o + 24, 4) == Some(h.size % TWO_32)
            && ReadLe(d, o + 28, 2) == Some(|h.name| % 0x1_0000) && ReadLe(d, o + 30, 2) == Some(|h.extra| % 0x1_0000)
            && ReadLe(d, o + 32, 2) == Some(|h.comment| % 0x1_0000) && ReadLe(d, o + 34, 2) == Some(h.disk % 0x1_0000)
            && ReadLe(d, o + 36, 2) == Some(h.internal % 0x1_0000) && ReadLe(d, o + 38, 4) == Some(h.external % TWO_32)
            && ReadLe(d, o + 42, 4) == Some(h.localOffset % TWO_32)
            && Slice(d, o + 46, |h.name|) == Some(h.name) && Slice(d, o + 46 + |h.name|, |h.extra|) == Some(h.extra)
            && Slice(d, o + 46 + |h.name| + |h.extra|, |h.comment|) == Some(h.comment)
  {
    hide Cat, Width, ToLe, ReadLe, Slice;
    var w := CentralFields(h);
    CentralWidths(h);
    LongAt(pre, w, post, 8, h.compressedSize);
    LongAt(pre, w, post, 9, h.size);
    ShortAt(pre, w, post, 10, |h.name|);
    ShortAt(pre, w, post, 11, |h.extra|);
    ShortAt(pre, w, post, 12, |h.comment|);
    ShortAt(pre, w, post, 13, h.disk);
    ShortAt(pre, w, post, 14, h.internal);
    LongAt(pre, w, post, 15, h.external);
    LongAt(pre, w, post, 16, h.localOffset);
    FieldAt(pre, w, post, 17);
    FieldAt(pre, w, post, 18);
    FieldAt(pre, w, post, 19);
  }

  /** Every field of the end record is read at its offset (section 4.3.16). */
  lemma EndLayout(pre: Bytes, e: EndRecord, post: Bytes)
    ensures var d := pre + Cat(EndFields(e)) + post; var o := |pre|;
            && ReadLe(d, o, 4) == Some(0x0605_4B50) && ReadLe(d, o + 4, 2) == Some(e.disk % 0x1_0000)
            && ReadLe(d, o + 6, 2) == Some(e.startDisk % 0x1_0000)
            && ReadLe(d, o + 8, 2) == Some(e.countHere % 0x1_0000)
            && ReadLe(d, o + 10, 2) == Some(e.count % 0x1_0000) && ReadLe(d, o + 12, 4) == Some(e.size % TWO_32)
            && ReadLe(d, o + 16, 4) == Some(e.offset % TWO_32) && ReadLe(d, o + 20, 2) == Some(|e.comment| % 0x1_0000)
            && Slice(d, o + 22, |e.comment|) == Some(e.comment)
  {
    hide Cat, Width, ToLe, ReadLe, Slice;
    var w := EndFields(e);
    EndWidths(e);
    LongAt(pre, w, post, 0, EOCD_SIGNATURE);
    ShortAt(pre, w, post, 1, e.disk);
    ShortAt(pre, w, post, 2, e.startDisk);
    ShortAt(pre, w, post, 3, e.countHere);
    ShortAt(pre, w, post, 4, e.count);
    LongAt(pre, w, post, 5, e.size);
    LongAt(pre, w, post, 6, e.offset);
    ShortAt(pre, w, post, 7, |e.comment|);
    FieldAt(pre, w, post, 8);
  }

  // ---- the end record ----

  /** An end record could start at `o`. */
  predicate Marks(d: Bytes, o: nat) { o + 22 <= |d| && ReadLe(d, o, 4) == Some(0x0605_4B50) }

  /** The reader takes the last signature with room for a record behind it and no more than a comment after that. */
  lemma EocdExactly(d: Bytes, o: nat)
    ensures Eocd(d) == Ok(o) <==>
            Marks(d, o) && |d| - (o + 22) < 0x1_0000 && forall j: nat :: j > o ==> !Marks(d, j)
    ensures Eocd(d).Err? <==> forall j: nat :: |d| - (j + 22) < 0x1_0000 ==> !Marks(d, j)
  {
    hide ReadLe;
    if |d| >= 22 {
      var lo := if |d| < 22 + 0xFFFF then 0 else |d| - (22 + 0xFFFF);
      ScanFinds(d, lo, |d| - 22);
    }
  }

  lemma {:induction false} ScanFinds(d: Bytes, lo: nat, hi: int)
    requires hi + 22 <= |d|
    ensures var r := ScanBack(d, lo, hi);
            && (r.Some? ==> lo <= r.value <= hi && Marks(d, r.value))
            && forall j: nat :: (if r.Some? then r.value < j else lo <= j) && j <= hi ==> !Marks(d, j)
    decreases hi
  {
    hide ReadLe;
    if hi >= lo && !Marks(d, hi) {
      ScanFinds(d, lo, hi - 1);
    }
  }

  /** An end record is found if and only if its comment is no longer than its length field says and hides no other. */
  lemma EndFound(before: Bytes, e: EndRecord)
    ensures var d := before + Cat(EndFields(e));
            Eocd(d) == Ok(|before|) <==> |e.comment| < 0x1_0000 && forall j: nat :: j > |before| ==> !Marks(d, j)
  {
    hide Cat, EndFields, ReadLe, Eocd;
    var d := before + Cat(EndFields(e));
    EndWidths(e);
    EndLayout(before, e, []);
    assert d + [] == d;
    EocdExactly(d, |before|);
  }

  // ---- the directory ----

  /** Whether what has to be right in a directory entry has room in its field. */
  predicate Fits(h: CentralHeader, utf8: Bytes -> bool) {
    && utf8(h.name) && |h.name| < 0x1_0000 && |h.extra| < 0x1_0000 && |h.comment| < 0x1_0000
    && h.compression < 0x1_0000 && h.compressedSize < TWO_32 && h.size < TWO_32 && h.localOffset < TWO_32
  }

  function Entry(h: CentralHeader): ZipEntry {
    ZipEntry(h.name, h.compression, h.compressedSize, h.size, h.localOffset)
  }

  function Listing(hs: seq<CentralHeader>): (r: seq<ZipEntry>)
    ensures |r| == |hs|
  {
    if hs == [] then [] else [Entry(hs[0])] + Listing(hs[1..])
  }

  lemma {:induction false} ListingAt(hs: seq<CentralHeader>, k: nat)
    requires k < |hs|
    ensures Listing(hs)[k] == Entry(hs[k])
  {
    if |hs| > 1 {
      ListingAt(hs[1..], if k > 0 then k - 1 else 0);
    }
  }

  /** An entry is read as it was written, and the next one is looked for behind its extra field and its comment. */
  lemma EntryRead(pre: Bytes, h: CentralHeader, post: Bytes, utf8: Bytes -> bool)
    requires Fits(h, utf8)
    ensures EntryAt(pre + Cat(CentralFields(h)) + post, utf8, |pre|)
            == Ok((Entry(h), |pre + Cat(CentralFields(h))|))
  {
    hide Cat, CentralFields, ReadLe, Slice;
    CentralLayout(pre, h, post);
    CentralLayoutOn(pre, h, post);
    CentralWidths(h);
  }

  // ---- nothing else is accepted ----

  /** How long the entry at `o` says it is. */
  function Extent(d: Bytes, o: nat): nat
    requires o + 46 <= |d|
  {
    46 + Le(d[o + 28..o + 30]) + Le(d[o + 30..o + 32]) + Le(d[o + 32..o + 34])
  }

  /** The directory entry that the bytes from `o` on make up. */
  function HeaderIn(d: Bytes, o: nat): CentralHeader
    requires o + 46 <= |d| && o + Extent(d, o) <= |d|
  {
    var name := o + 46 + Le(d[o + 28..o + 30]);
    var extra := name + Le(d[o + 30..o + 32]);
    CentralHeader(Le(d[o + 4..o + 6]), Le(d[o + 6..o + 8]), Le(d[o + 8..o + 10]), Le(d[o + 10..o + 12]),
                  Le(d[o + 12..o + 14]), Le(d[o + 14..o + 16]), Le(d[o + 16..o + 20]), Le(d[o + 20..o + 24]),
                  Le(d[o + 24..o + 28]), Le(d[o + 34..o + 36]), Le(d[o + 36..o + 38]), Le(d[o + 38..o + 42]),
                  Le(d[o + 42..o + 46]), d[o + 46..name], d[name..extra], d[extra..o + Extent(d, o)])
  }

  lemma NumbersStand(d: Bytes, o: nat)
    requires o + 46 <= |d| && o + Extent(d, o) <= |d| && ReadLe(d, o, 4) == Some(CENTRAL_DIR_SIGNATURE)
    ensures var w := CentralFields(HeaderIn(d, o));
            |w| == 20 && forall i :: 0 <= i < 10 ==> Slice(d, o + Width(w, i), |w[i]|) == Some(w[i])
  {
    hide Cat, Le, ToLe, Width, Slice, Extent;
    CentralWidths(HeaderIn(d, o));
    NumberStands(d, o, 4);
    NumberStands(d, o + 4, 2);
    NumberStands(d, o + 6, 2);
    NumberStands(d, o + 8, 2);
    NumberStands(d, o + 10, 2);
    NumberStands(d, o + 12, 2);
    NumberStands(d, o + 14, 2);
    NumberStands(d, o + 16, 4);
    NumberStands(d, o + 20, 4);
    NumberStands(d, o + 24, 4);
  }

  lemma TextsStand(d: Bytes, o: nat)
    requires o + 46 <= |d| && o + Extent(d, o) <= |d|
    ensures var w := CentralFields(HeaderIn(d, o));
            |w| == 20 && forall i :: 10 <= i < 20 ==> Slice(d, o + Width(w, i), |w[i]|) == Some(w[i])
  {
    hide Cat, Le, ToLe, Width;
    CentralWidths(HeaderIn(d, o));
    NumberStands(d, o + 28, 2);
    NumberStands(d, o + 30, 2);
    NumberStands(d, o + 32, 2);
    NumberStands(d, o + 34, 2);
    NumberStands(d, o + 36, 2);
    NumberStands(d, o + 38, 4);
    NumberStands(d, o + 42, 4);
  }

  lemma NumbersFit(d: Bytes, o: nat)
    requires o + 46 <= |d| && o + Extent(d, o) <= |d|
    ensures var h := HeaderIn(d, o);
            && |h.name| < 0x1_0000 && |h.extra| < 0x1_0000 && |h.comment| < 0x1_0000
            && h.compression < 0x1_0000 && h.compressedSize < TWO_32 && h.size < TWO_32 && h.localOffset < TWO_32
  {
    hide Le;
    NumberStands(d, o + 10, 2);
    NumberStands(d, o + 20, 4);
    NumberStands(d, o + 24, 4);
    NumberStands(d, o + 28, 2);
    NumberStands(d, o + 30, 2);
    NumberStands(d, o + 32, 2);
    NumberStands(d, o + 42, 4);
  }

  lemma HeaderStands(d: Bytes, o: nat)
    requires o + 46 <= |d| && o + Extent(d, o) <= |d| && ReadLe(d, o, 4) == Some(CENTRAL_DIR_SIGNATURE)
    ensures var rec := Cat(CentralFields(HeaderIn(d, o))); |rec| == Extent(d, o) && Slice(d, o, |rec|) == Some(rec)
  {
    hide Cat, CentralFields, Le, Width, Slice;
    var h := HeaderIn(d, o);
    NumbersStand(d, o);
    TextsStand(d, o);
    CentralWidths(h);
    CatWidth(CentralFields(h));
    FieldsStand(d, o, CentralFields(h));
  }

  /** The entry `h` is at `o`, at least up to its name: what is behind that may go on past the end. */
  ghost predicate Stands(d: Bytes, o: nat, h: CentralHeader) {
    o + 46 + |h.name| <= |d| && exists more: Bytes :: StandsIn(d + more, o, h)
  }

  ghost predicate StandsIn(d: Bytes, o: nat, h: CentralHeader) {
    Slice(d, o, |Cat(CentralFields(h))|) == Some(Cat(CentralFields(h)))
  }

  /** Bytes behind the name are not looked at. */
  lemma SameEntry(d: Bytes, more: Bytes, o: nat, utf8: Bytes -> bool)
    requires o + 46 <= |d| && o + 46 + Le(d[o + 28..o + 30]) <= |d|
    ensures EntryAt(d + more, utf8, o) == EntryAt(d, utf8, o)
    ensures Extent(d + more, o) == Extent(d, o)
  {
    hide Le;
    SameNumber(d, more, o, 4);
    SameNumber(d, more, o + 10, 2);
    SameNumber(d, more, o + 20, 4);
    SameNumber(d, more, o + 24, 4);
    SameNumber(d, more, o + 28, 2);
    SameNumber(d, more, o + 30, 2);
    SameNumber(d, more, o + 32, 2);
    SameNumber(d, more, o + 42, 4);
    assert (d + more)[o + 46..o + 46 + Le(d[o + 28..o + 30])] == d[o + 46..o + 46 + Le(d[o + 28..o + 30])];
  }

  lemma SameNumber(d: Bytes, more: Bytes, o: nat, n: nat)
    requires o + n <= |d|
    ensures (d + more)[o..o + n] == d[o..o + n]
  {
  }

  /** A directory entry is accepted if and only if one stands there, with a name that is UTF-8. */
  lemma EntryExactly(d: Bytes, o: nat, utf8: Bytes -> bool, entry: ZipEntry, next: nat)
    ensures EntryAt(d, utf8, o) == Ok((entry, next))
            <==> exists h :: Fits(h, utf8) && Stands(d, o, h) && entry == Entry(h)
                             && next == o + |Cat(CentralFields(h))|
  {
    hide Cat, CentralFields, EntryAt, Fits, Le;
    if EntryAt(d, utf8, o) == Ok((entry, next)) {
      var h := EntryStands(d, o, utf8);
    }
    if h :| Fits(h, utf8) && Stands(d, o, h) && entry == Entry(h) && next == o + |Cat(CentralFields(h))| {
      StandingRead(d, o, utf8, h);
    }
  }

  lemma StandingRead(d: Bytes, o: nat, utf8: Bytes -> bool, h: CentralHeader)
    requires Fits(h, utf8) && Stands(d, o, h)
    ensures EntryAt(d, utf8, o) == Ok((Entry(h), o + |Cat(CentralFields(h))|))
  {
    hide Cat, CentralFields, EntryAt, Le;
    var more: Bytes :| StandsIn(d + more, o, h);
    var rec, whole := Cat(CentralFields(h)), d + more;
    var pre, post := whole[..o], whole[o + |rec|..];
    assert whole == pre + rec + post;
    EntryRead(pre, h, post, utf8);
    CentralLayoutOn(pre, h, post);
    SameNumber(d, more, o + 28, 2);
    SameEntry(d, more, o, utf8);
  }

  lemma EntryStands(d: Bytes, o: nat, utf8: Bytes -> bool) returns (h: CentralHeader)
    requires EntryAt(d, utf8, o).Ok?
    ensures Fits(h, utf8) && Stands(d, o, h)
    ensures EntryAt(d, utf8, o) == Ok((Entry(h), o + |Cat(CentralFields(h))|))
  {
    hide Cat, CentralFields, Le;
    var more: Bytes := seq(Extent(d, o), _ => 0);
    var whole := d + more;
    SameEntry(d, more, o, utf8);
    h := HeaderIn(whole, o);
    HeaderStands(whole, o);
    NumbersFit(whole, o);
    assert StandsIn(d + more, o, h);
  }

  /** Directory entries one after the other from `o` on. */
  ghost predicate Follow(d: Bytes, o: nat, hs: seq<CentralHeader>, utf8: Bytes -> bool)
    decreases |hs|
  {
    hs != [] ==>
      Fits(hs[0], utf8) && Stands(d, o, hs[0]) && Follow(d, o + |Cat(CentralFields(hs[0]))|, hs[1..], utf8)
  }

  ghost predicate ListedBy(d: Bytes, o: nat, hs: seq<CentralHeader>, utf8: Bytes -> bool, entries: seq<ZipEntry>) {
    Follow(d, o, hs, utf8) && entries == Listing(hs)
  }

  lemma {:induction false} FollowingRead(d: Bytes, o: nat, hs: seq<CentralHeader>, utf8: Bytes -> bool)
    requires Follow(d, o, hs, utf8)
    ensures EntriesAt(d, utf8, o, |hs|) == Ok(Listing(hs))
    decreases |hs|
  {
    hide Cat, CentralFields, EntryAt, Stands, Entry, Fits;
    if hs != [] {
      StandingRead(d, o, utf8, hs[0]);
      FollowingRead(d, o + |Cat(CentralFields(hs[0]))|, hs[1..], utf8);
    }
  }

  lemma {:induction false} EntriesFollow(d: Bytes, o: nat, n: nat, utf8: Bytes -> bool) returns (hs: seq<CentralHeader>)
    requires EntriesAt(d, utf8, o, n).Ok?
    ensures |hs| == n && ListedBy(d, o, hs, utf8, EntriesAt(d, utf8, o, n).value)
    decreases n
  {
    hide Cat, CentralFields, EntryAt, Stands, Entry, Fits;
    hs := [];
    if n > 0 {
      var h := EntryStands(d, o, utf8);
      var rest := EntriesFollow(d, o + |Cat(CentralFields(h))|, n - 1, utf8);
      hs := [h] + rest;
      assert hs[1..] == rest;
    }
  }

  /** The whole listing: an archive is accepted if and only if its end record leads to as many entries as it counts. */
  lemma DirectoryExactly(d: Bytes, utf8: Bytes -> bool, entries: seq<ZipEntry>)
    ensures Directory(d, utf8) == Ok(entries)
            <==> && Eocd(d).Ok?
                 && exists hs, o :: ReadLe(d, Eocd(d).value + 10, 2) == Some(|hs|)
                                    && ReadLe(d, Eocd(d).value + 16, 4) == Some(o) && ListedBy(d, o, hs, utf8, entries)
  {
    hide Eocd, ReadLe, EntriesAt, Follow, Listing;
    if Directory(d, utf8) == Ok(entries) {
      var at := Eocd(d).value;
      var hs := EntriesFollow(d, ReadLe(d, at + 16, 4).value, ReadLe(d, at + 10, 2).value, utf8);
    }
    if Eocd(d).Ok? {
      if hs, o :| ReadLe(d, Eocd(d).value + 10, 2) == Some(|hs|)
                  && ReadLe(d, Eocd(d).value + 16, 4) == Some(o) && ListedBy(d, o, hs, utf8, entries) {
        FollowingRead(d, o, hs, utf8);
      }
    }
  }

  lemma {:induction false} DirectoryRead(pre: Bytes, hs: seq<CentralHeader>, post: Bytes, utf8: Bytes -> bool)
    requires forall h :: h in hs ==> Fits(h, utf8)
    ensures EntriesAt(pre + Heads(hs) + post, utf8, |pre|, |hs|) == Ok(Listing(hs))
    decreases |hs|
  {
    hide Cat, CentralFields, Fits, EntryAt, Entry;
    if hs != [] {
      var head := Cat(CentralFields(hs[0]));
      var rest := Heads(hs[1..]);
      EntryRead(pre, hs[0], rest + post, utf8);
      DirectoryRead(pre + head, hs[1..], post, utf8);
      assert pre + (head + rest) + post == pre + head + (rest + post) == (pre + head) + rest + post;
    }
  }

  /**
   The listing of any archive whose end record is found is that of its directory, whatever the extra fields, comments,
   methods and sizes, whatever the archive holds before the directory and between it and the end record.
   */
  lemma ListsDirectory(pre: Bytes, hs: seq<CentralHeader>, gap: Bytes, e: EndRecord, utf8: Bytes -> bool)
    requires forall h :: h in hs ==> Fits(h, utf8)
    requires e.count == |hs| < 0x1_0000 && e.offset == |pre| < TWO_32
    requires Eocd(pre + Heads(hs) + gap + Cat(EndFields(e))) == Ok(|pre + Heads(hs) + gap|)
    ensures Directory(pre + Heads(hs) + gap + Cat(EndFields(e)), utf8) == Ok(Listing(hs))
  {
    hide Cat, EndFields, Heads, ReadLe, Eocd, EntriesAt, Listing, Fits;
    var before, end := pre + Heads(hs) + gap, Cat(EndFields(e));
    var d := before + end;
    EndLayout(before, e, []);
    assert before + end + [] == d;
    DirectoryRead(pre, hs, gap + end, utf8);
    assert pre + Heads(hs) + (gap + end) == d;
  }

  // ---- the data ----

  /** The bytes of a file are those right behind its local header, its local extra field included. */
  lemma ReadsRaw(before: Bytes, h: LocalHeader, raw: Bytes, after: Bytes, entry: ZipEntry)
    requires |h.name| < 0x1_0000 && |h.extra| < 0x1_0000
    requires entry.localHeaderOffset == |before| && entry.compressedSize == |raw|
    ensures RawEntry(before + Cat(LocalFields(h)) + raw + after, entry) == Ok(raw)
  {
    hide Cat, LocalFields, ReadLe;
    var rec := Cat(LocalFields(h));
    LocalLayout(before, h, raw + after);
    LocalWidths(h);
    assert before + rec + (raw + after) == before + rec + raw + after;
    assert (before + rec + raw + after)[|before + rec|..|before + rec + raw|] == raw;
  }

  /** A local header and the bytes behind it. */
  ghost predicate Holds(d: Bytes, o: nat, h: LocalHeader, raw: Bytes) {
    && |h.name| < 0x1_0000 && |h.extra| < 0x1_0000
    && Slice(d, o, |Cat(LocalFields(h)) + raw|) == Some(Cat(LocalFields(h)) + raw)
  }

  /** Bytes are read for an entry if and only if they are as many as it says and stand behind a local header there. */
  lemma RawExactly(d: Bytes, entry: ZipEntry, raw: Bytes)
    ensures RawEntry(d, entry) == Ok(raw)
            <==> |raw| == entry.compressedSize && exists h :: Holds(d, entry.localHeaderOffset, h, raw)
  {
    hide Cat, LocalFields, RawEntry;
    var o := entry.localHeaderOffset;
    if h :| |raw| == entry.compressedSize && Holds(d, o, h, raw) {
      var rec := Cat(LocalFields(h));
      var before, after := d[..o], d[o + |rec + raw|..];
      assert d == before + (rec + raw) + after == before + rec + raw + after;
      ReadsRaw(before, h, raw, after, entry);
    }
    if RawEntry(d, entry) == Ok(raw) {
      RawStands(d, entry);
    }
  }

  lemma RawStands(d: Bytes, entry: ZipEntry)
    requires RawEntry(d, entry).Ok?
    ensures |RawEntry(d, entry).value| == entry.compressedSize
    ensures exists h :: Holds(d, entry.localHeaderOffset, h, RawEntry(d, entry).value)
  {
    hide Cat, LocalFields, Le, Holds;
    var o := entry.localHeaderOffset;
    var name := o + 30 + Le(d[o + 26..o + 28]);
    var extra := name + Le(d[o + 28..o + 30]);
    LocalStands(d, o, name, extra, RawEntry(d, entry).value);
  }

  lemma LocalStands(d: Bytes, o: nat, name: nat, extra: nat, raw: Bytes)
    requires ReadLe(d, o, 4) == Some(LOCAL_FILE_SIGNATURE) && o + 30 <= name <= extra && extra + |raw| <= |d|
    requires name == o + 30 + Le(d[o + 26..o + 28]) && extra == name + Le(d[o + 28..o + 30])
    requires raw == d[extra..extra + |raw|]
    ensures exists h :: Holds(d, o, h, raw)
  {
    hide Cat, Le, ToLe, Width;
    var h := LocalHeader(Le(d[o + 4..o + 6]), Le(d[o + 6..o + 8]), Le(d[o + 8..o + 10]), Le(d[o + 10..o + 12]),
                         Le(d[o + 12..o + 14]), Le(d[o + 14..o + 18]), Le(d[o + 18..o + 22]), Le(d[o + 22..o + 26]),
                         d[o + 30..name], d[name..extra]);
    LocalWidths(h);
    CatWidth(LocalFields(h));
    NumberStands(d, o, 4);
    NumberStands(d, o + 4, 2);
    NumberStands(d, o + 6, 2);
    NumberStands(d, o + 8, 2);
    NumberStands(d, o + 10, 2);
    NumberStands(d, o + 12, 2);
    NumberStands(d, o + 14, 4);
    NumberStands(d, o + 18, 4);
    NumberStands(d, o + 22, 4);
    NumberStands(d, o + 26, 2);
    NumberStands(d, o + 28, 2);
    FieldsStand(d, o, LocalFields(h));
    JoinSlices(d, o, Cat(LocalFields(h)), raw);
    assert Holds(d, o, h, raw);
  }

  /** Bytes that any compressor deflated into blocks with good tables are inflated to what the blocks stand for. */
  lemma ReadsDeflated(before: Bytes, h: LocalHeader, blocks: seq<DeflateRoundTrip.Block>, after: Bytes, entry: ZipEntry)
    requires |h.name| < 0x1_0000 && |h.extra| < 0x1_0000 && entry.localHeaderOffset == |before|
    requires DeflateRoundTrip.Encode(blocks, 0, []).Some? && DeflateRoundTrip.AllGood(blocks)
    requires entry.compressedSize == |Bits.Pack(DeflateRoundTrip.Encode(blocks, 0, []).value.0)|
    ensures var (bits, expanded) := DeflateRoundTrip.Encode(blocks, 0, []).value;
            var raw := RawEntry(before + Cat(LocalFields(h)) + Bits.Pack(bits) + after, entry);
            raw.Ok? && Deflate.StreamAt(Bits.BitsOf(raw.value), 0, []) == Some(expanded)
  {
    hide Cat, LocalFields, RawEntry, DeflateRoundTrip.Encode, Deflate.StreamAt, Bits.BitsOf, Bits.Pack;
    ReadsRaw(before, h, Bits.Pack(DeflateRoundTrip.Encode(blocks, 0, []).value.0), after, entry);
    DeflateRoundTrip.InflateInverts(blocks);
  }
}
