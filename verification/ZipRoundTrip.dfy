/** What the ZIP writer writes, the reader reads back: kernel/src/zip.rs against kernel/src/apk.rs. */
module ZipRoundTrip {
  import opened Common
  import opened LittleEndian
  import opened Zip
  import opened ZipReading

  // ---- where the records are ----

  /** Where the local header of file `k` starts. */
  function LocalOffset(files: seq<File>, crc: Bytes -> nat, k: nat): nat
    requires k <= |files|
  {
    |Locals(files[..k], crc)|
  }

  lemma {:induction false} LocalsPrefix(files: seq<File>, crc: Bytes -> nat, k: nat)
    requires k <= |files|
    ensures Locals(files[..k], crc) <= Locals(files, crc)
  {
    hide Cat, LocalFields;
    if k < |files| {
      var most := files[..|files| - 1];
      LocalsPrefix(most, crc, k);
      assert most[..k] == files[..k];
    } else {
      assert files[..k] == files;
    }
  }

  lemma {:induction false} WrittenHeader(files: seq<File>, crc: Bytes -> nat, k: nat)
    requires k < |files|
    ensures Headers(files, crc)[k] == StoredCentral(files[k], crc, LocalOffset(files, crc, k))
  {
    hide Cat, LocalFields, Locals;
    var most := files[..|files| - 1];
    if k < |most| {
      WrittenHeader(most, crc, k);
      assert most[..k] == files[..k];
    }
  }

  lemma LocalStep(files: seq<File>, crc: Bytes -> nat, k: nat)
    requires k < |files|
    ensures Locals(files[..k + 1], crc)
            == Locals(files[..k], crc) + Cat(LocalFields(StoredLocal(files[k], crc))) + files[k].data
  {
    hide Cat, LocalFields;
    assert files[..k + 1][..k] == files[..k];
  }

  /** The local header of file `k` and its data are in the archive. */
  lemma LocalRecord(files: seq<File>, crc: Bytes -> nat, k: nat) returns (before: Bytes, after: Bytes)
    requires k < |files|
    ensures |before| == LocalOffset(files, crc, k) <= |Locals(files, crc)|
    ensures Archive(files, crc)
            == before + Cat(LocalFields(StoredLocal(files[k], crc))) + files[k].data + after
  {
    hide Cat, LocalFields, Locals, EndFields, Heads;
    LocalStep(files, crc, k);
    LocalsPrefix(files, crc, k + 1);
    before := Locals(files[..k], crc);
    after := Archive(files, crc)[|Locals(files[..k + 1], crc)|..];
  }

  // ---- the numbers in them ----

  /** What the writer puts into the local header of each file, at the offsets the format gives. */
  lemma LocalWritten(files: seq<File>, crc: Bytes -> nat, k: nat)
    requires k < |files|
    ensures var d, o := Archive(files, crc), LocalOffset(files, crc, k); var size := |files[k].data| % TWO_32;
            && ReadLe(d, o, 4) == Some(0x0403_4B50)
            && ReadLe(d, o + 4, 2) == Some(20) && ReadLe(d, o + 6, 2) == Some(0) && ReadLe(d, o + 8, 2) == Some(0)
            && ReadLe(d, o + 10, 2) == Some(0) && ReadLe(d, o + 12, 2) == Some(0)
            && ReadLe(d, o + 14, 4) == Some(crc(files[k].data) % TWO_32)
            && ReadLe(d, o + 18, 4) == Some(size) && ReadLe(d, o + 22, 4) == Some(size)
            && ReadLe(d, o + 26, 2) == Some(|files[k].name| % 0x1_0000) && ReadLe(d, o + 28, 2) == Some(0)
            && Slice(d, o + 30, |files[k].name|) == Some(files[k].name)
  {
    hide Archive, Cat, LocalFields, ReadLe, Slice, LocalOffset;
    var before, after := LocalRecord(files, crc, k);
    var h := StoredLocal(files[k], crc);
    LocalLayout(before, h, files[k].data + after);
    assert before + Cat(LocalFields(h)) + (files[k].data + after)
        == before + Cat(LocalFields(h)) + files[k].data + after;
  }

  /** What it puts into the directory entry of each file, the place of its local header among it. */
  lemma CentralWritten(files: seq<File>, crc: Bytes -> nat, k: nat)
    requires k < |files|
    ensures var d, o := Archive(files, crc), CentralOffset(files, crc, k); var size := |files[k].data| % TWO_32;
            && ReadLe(d, o, 4) == Some(0x0201_4B50) && ReadLe(d, o + 4, 2) == Some(20)
            && ReadLe(d, o + 6, 2) == Some(20) && ReadLe(d, o + 8, 2) == Some(0) && ReadLe(d, o + 10, 2) == Some(0)
            && ReadLe(d, o + 12, 2) == Some(0) && ReadLe(d, o + 14, 2) == Some(0)
            && ReadLe(d, o + 16, 4) == Some(crc(files[k].data) % TWO_32)
            && ReadLe(d, o + 20, 4) == Some(size) && ReadLe(d, o + 24, 4) == Some(size)
            && ReadLe(d, o + 28, 2) == Some(|files[k].name| % 0x1_0000) && ReadLe(d, o + 30, 2) == Some(0)
            && ReadLe(d, o + 32, 2) == Some(0) && ReadLe(d, o + 34, 2) == Some(0) && ReadLe(d, o + 36, 2) == Some(0)
            && ReadLe(d, o + 38, 4) == Some(0) && ReadLe(d, o + 42, 4) == Some(LocalOffset(files, crc, k) % TWO_32)
            && Slice(d, o + 46, |files[k].name|) == Some(files[k].name)
  {
    hide Archive, Cat, CentralFields, ReadLe, Slice, LocalOffset, Heads, Headers;
    var before, after := CentralRecord(files, crc, k);
    WrittenHeader(files, crc, k);
    CentralLayout(before, Headers(files, crc)[k], after);
    CentralLayoutOn(before, Headers(files, crc)[k], after);
  }

  /** Where the directory entry of file `k` starts: behind all local files and the entries before it, 46 bytes each
      and a name. */
  function CentralOffset(files: seq<File>, crc: Bytes -> nat, k: nat): nat
    requires k <= |files|
  {
    |Locals(files, crc)| + NamesLength(files[..k]) + 46 * k
  }

  function NamesLength(files: seq<File>): nat {
    if files == [] then 0 else NamesLength(files[..|files| - 1]) + |files[|files| - 1].name|
  }

  lemma {:induction false} HeadsSplit(hs: seq<CentralHeader>, k: nat)
    requires k < |hs|
    ensures Heads(hs) == Heads(hs[..k]) + Cat(CentralFields(hs[k])) + Heads(hs[k + 1..])
  {
    hide Cat, CentralFields;
    if k > 0 {
      HeadsSplit(hs[1..], k - 1);
      assert hs[..k][1..] == hs[1..][..k - 1] && hs[1..][k..] == hs[k + 1..];
    } else {
      assert hs[..0] == [];
    }
  }

  lemma {:induction false} HeadsLength(files: seq<File>, crc: Bytes -> nat)
    ensures |Heads(Headers(files, crc))| == NamesLength(files) + 46 * |files|
  {
    hide Cat, CentralFields, Heads, Locals;
    NoHeads();
    if files != [] {
      var most := files[..|files| - 1];
      var h := StoredCentral(files[|files| - 1], crc, |Locals(most, crc)|);
      HeadsLength(most, crc);
      HeadsSnoc(Headers(most, crc), h);
      CentralWidths(h);
    }
  }

  lemma {:induction false} HeadersPrefix(files: seq<File>, crc: Bytes -> nat, k: nat)
    requires k <= |files|
    ensures Headers(files, crc)[..k] == Headers(files[..k], crc)
  {
    hide Locals;
    if k < |files| {
      var most := files[..|files| - 1];
      HeadersPrefix(most, crc, k);
      assert most[..k] == files[..k];
    } else {
      assert files[..k] == files;
    }
  }

  lemma CentralRecord(files: seq<File>, crc: Bytes -> nat, k: nat) returns (before: Bytes, after: Bytes)
    requires k < |files|
    ensures |before| == CentralOffset(files, crc, k)
    ensures Archive(files, crc) == before + Cat(CentralFields(Headers(files, crc)[k])) + after
  {
    hide Cat, CentralFields, Locals, EndFields, Heads, Headers, NamesLength;
    var hs := Headers(files, crc);
    HeadsSplit(hs, k);
    HeadersPrefix(files, crc, k);
    HeadsLength(files[..k], crc);
    before := Locals(files, crc) + Heads(hs[..k]);
    after := Heads(hs[k + 1..]) + Cat(EndFields(StoredEnd(|files|, |Heads(hs)|, |Locals(files, crc)|)));
  }

  /** What it puts into the end record. */
  lemma EndWritten(files: seq<File>, crc: Bytes -> nat)
    ensures |Archive(files, crc)| == CentralOffset(files, crc, |files|) + 22
    ensures var d, o := Archive(files, crc), CentralOffset(files, crc, |files|);
            && Eocd(d) == Ok(o) && ReadLe(d, o, 4) == Some(0x0605_4B50)
            && ReadLe(d, o + 4, 2) == Some(0) && ReadLe(d, o + 6, 2) == Some(0)
            && ReadLe(d, o + 8, 2) == Some(|files| % 0x1_0000) && ReadLe(d, o + 10, 2) == Some(|files| % 0x1_0000)
            && ReadLe(d, o + 12, 4) == Some((o - |Locals(files, crc)|) % TWO_32)
            && ReadLe(d, o + 16, 4) == Some(|Locals(files, crc)| % TWO_32) && ReadLe(d, o + 20, 2) == Some(0)
  {
    hide Cat, Locals, EndFields, Heads, Headers, NamesLength, ReadLe, Eocd;
    var before := Locals(files, crc) + Heads(Headers(files, crc));
    var e := StoredEnd(|files|, |Heads(Headers(files, crc))|, |Locals(files, crc)|);
    var d := Archive(files, crc);
    assert d == before + Cat(EndFields(e)) == d + [];
    assert files[..|files|] == files;
    HeadsLength(files, crc);
    EndLayout(before, e, []);
    EndWidths(e);
    EndFound(before, e);
  }

  // ---- reading them ----

  /** What a listing of the archive should say. */
  function Expected(files: seq<File>, crc: Bytes -> nat): seq<ZipEntry> {
    seq(|files|, k requires 0 <= k < |files| =>
      ZipEntry(files[k].name, METHOD_STORED, |files[k].data|, |files[k].data|, LocalOffset(files, crc, k)))
  }

  lemma ExpectedIsListing(files: seq<File>, crc: Bytes -> nat)
    ensures Expected(files, crc) == Listing(Headers(files, crc))
  {
    hide Headers, Listing, LocalOffset;
    forall k | 0 <= k < |files|
      ensures Expected(files, crc)[k] == Listing(Headers(files, crc))[k]
    {
      WrittenHeader(files, crc, k);
      ListingAt(Headers(files, crc), k);
    }
  }

  lemma ExpectedNames(files: seq<File>, crc: Bytes -> nat)
    ensures |Expected(files, crc)| == |files|
    ensures forall k :: 0 <= k < |files| ==> Expected(files, crc)[k].name == files[k].name
  {
  }

  lemma {:induction false} EntriesBounded(d: Bytes, utf8: Bytes -> bool, offset: nat, n: nat)
    ensures var r := EntriesAt(d, utf8, offset, n);
            r.Ok? ==> |r.value| == n && forall k :: 0 <= k < n ==> |r.value[k].name| < 0x1_0000
    decreases n
  {
    hide EntryAt;
    if n > 0 {
      NameBounded(d, utf8, offset);
      var e := EntryAt(d, utf8, offset);
      if e.Ok? {
        EntriesBounded(d, utf8, e.value.1, n - 1);
      }
    }
  }

  lemma NameBounded(d: Bytes, utf8: Bytes -> bool, offset: nat)
    ensures EntryAt(d, utf8, offset).Ok? ==> |EntryAt(d, utf8, offset).value.0.name| < 0x1_0000
  {
    WordBounds();
    hide Le, Pow2;
  }

  lemma AllFit(files: seq<File>, crc: Bytes -> nat, utf8: Bytes -> bool)
    requires |Locals(files, crc)| < TWO_32
    requires forall j :: 0 <= j < |files| ==> |files[j].name| < 0x1_0000 && utf8(files[j].name)
    ensures forall h :: h in Headers(files, crc) ==> Fits(h, utf8)
  {
    hide Locals, Headers;
    forall k | 0 <= k < |files| ensures Fits(Headers(files, crc)[k], utf8) {
      WrittenHeader(files, crc, k);
      LocalStep(files, crc, k);
      LocalsPrefix(files, crc, k);
      LocalsPrefix(files, crc, k + 1);
    }
  }

  /**
   Listing an archive that was just written gives back the names, sizes and places of its files in order, exactly when
   there are fewer than 2^16 of them and no name is as long as that. The archive is below 4 GiB, the names are UTF-8.
   */
  lemma ListsBack(files: seq<File>, crc: Bytes -> nat, utf8: Bytes -> bool)
    requires |Locals(files, crc)| < TWO_32 && forall j :: 0 <= j < |files| ==> utf8(files[j].name)
    ensures Directory(Archive(files, crc), utf8) == Ok(Expected(files, crc))
            <==> |files| < 0x1_0000 && forall j :: 0 <= j < |files| ==> |files[j].name| < 0x1_0000
  {
    hide Cat, EndFields, Locals, Heads, Headers, EntriesAt, Eocd, ReadLe, Listing, Expected, CentralOffset, Fits;
    var d := Archive(files, crc);
    var locals, hs := Locals(files, crc), Headers(files, crc);
    EndWritten(files, crc);
    EntriesBounded(d, utf8, |locals|, |files| % 0x1_0000);
    ExpectedNames(files, crc);
    if |files| < 0x1_0000 && forall j :: 0 <= j < |files| ==> |files[j].name| < 0x1_0000 {
      var e := StoredEnd(|files|, |Heads(hs)|, |locals|);
      AllFit(files, crc, utf8);
      ExpectedIsListing(files, crc);
      EndWidths(e);
      assert locals + Heads(hs) + [] == locals + Heads(hs);
      ListsDirectory(locals, hs, [], e, utf8);
    }
  }

  /** Reading any file of the archive gives back its exact bytes. */
  lemma ReadsBack(files: seq<File>, crc: Bytes -> nat, k: nat)
    requires k < |files| && |files[k].name| < 0x1_0000
    ensures RawEntry(Archive(files, crc), Expected(files, crc)[k]) == Ok(files[k].data)
  {
    hide Archive, Locals, LocalFields, Cat, ReadLe, Slice;
    var before, after := LocalRecord(files, crc, k);
    ReadsRaw(before, StoredLocal(files[k], crc), files[k].data, after, Expected(files, crc)[k]);
  }

  /** Writing an archive and extracting it again. */
  method Extract(files: seq<File>, crc: Bytes -> nat, utf8: Bytes -> bool) returns (r: Result<seq<File>>)
    requires |Locals(files, crc)| < TWO_32 && |files| < 0x1_0000
    requires forall j :: 0 <= j < |files| ==> |files[j].name| < 0x1_0000 && utf8(files[j].name)
    ensures r == Ok(files)
  {
    hide Archive, Locals, LocalOffset, Directory, RawEntry;
    var archive := BuildStored(files, crc);
    ListsBack(files, crc, utf8);
    var listing := ListEntries(archive, utf8);
    var out: seq<File> := [];
    for k := 0 to |files|
      invariant out == files[..k]
    {
      ReadsBack(files, crc, k);
      var data := ReadEntry(archive, listing.value[k]);
      out := out + [File(listing.value[k].name, data.value)];
    }
    assert files[..|files|] == files;
    return Ok(out);
  }
}
