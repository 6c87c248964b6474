/** The ZIP writer of kernel/src/zip.rs and the independent reader of kernel/src/apk.rs. */
module Zip {
  import opened Common
  import opened LittleEndian
  import Bits
  import Deflate

  const EOCD_SIGNATURE: nat := 0x0605_4B50
  const CENTRAL_DIR_SIGNATURE: nat := 0x0201_4B50
  const LOCAL_FILE_SIGNATURE: nat := 0x0403_4B50
  const METHOD_STORED: nat := 0
  const METHOD_DEFLATE: nat := 8

  /** One constructor for each of the messages the reader reports. */
  datatype Error =
    | TooSmall | NoEocd | TruncatedEocd
    | MalformedCentral | TruncatedCentral | NameOutOfBounds | NameNotUtf8
    | MalformedLocal | TruncatedLocal | DataOutOfBounds
    | CorruptStream | UnsupportedMethod

  datatype Result<+T> = Ok(value: T) | Err(error: Error)

  /** A file to archive: its name, as the bytes of its UTF-8 form, and its contents. */
  datatype File = File(name: Bytes, data: Bytes)

  datatype ZipEntry = ZipEntry(name: Bytes, compression: nat, compressedSize: nat, uncompressedSize: nat,
    localHeaderOffset: nat)

  // ---- records ----

  /** A local file header. Writing a number in `n` bytes keeps its low `n` bytes. */
  datatype LocalHeader = LocalHeader(version: nat, flags: nat, compression: nat, time: nat, date: nat, crc: nat,
    compressedSize: nat, size: nat, name: Bytes, extra: Bytes)

  /** An entry of the central directory. */
  datatype CentralHeader = CentralHeader(madeBy: nat, version: nat, flags: nat, compression: nat, time: nat, date: nat,
    crc: nat, compressedSize: nat, size: nat, disk: nat, internal: nat, external: nat, localOffset: nat, name: Bytes,
    extra: Bytes, comment: Bytes)

  /** The end of the central directory. */
  datatype EndRecord = EndRecord(disk: nat, startDisk: nat, countHere: nat, count: nat, size: nat, offset: nat,
    comment: Bytes)

  function LocalFields(h: LocalHeader): seq<Bytes> {
    [ToLe(LOCAL_FILE_SIGNATURE, 4), ToLe(h.version, 2), ToLe(h.flags, 2), ToLe(h.compression, 2), ToLe(h.time, 2),
     ToLe(h.date, 2), ToLe(h.crc, 4), ToLe(h.compressedSize, 4), ToLe(h.size, 4), ToLe(|h.name|, 2), ToLe(|h.extra|, 2),
     h.name, h.extra]
  }

  function CentralFields(h: CentralHeader): seq<Bytes> {
    [ToLe(CENTRAL_DIR_SIGNATURE, 4), ToLe(h.madeBy, 2), ToLe(h.version, 2), ToLe(h.flags, 2), ToLe(h.compression, 2),
     ToLe(h.time, 2), ToLe(h.date, 2), ToLe(h.crc, 4), ToLe(h.compressedSize, 4), ToLe(h.size, 4), ToLe(|h.name|, 2),
     ToLe(|h.extra|, 2), ToLe(|h.comment|, 2), ToLe(h.disk, 2), ToLe(h.internal, 2), ToLe(h.external, 4),
     ToLe(h.localOffset, 4), h.name, h.extra, h.comment]
  }

  function EndFields(e: EndRecord): seq<Bytes> {
    [ToLe(EOCD_SIGNATURE, 4), ToLe(e.disk, 2), ToLe(e.startDisk, 2), ToLe(e.countHere, 2), ToLe(e.count, 2),
     ToLe(e.size, 4), ToLe(e.offset, 4), ToLe(|e.comment|, 2), e.comment]
  }

  /** A central directory. */
  function Heads(hs: seq<CentralHeader>): Bytes {
    if hs == [] then [] else Cat(CentralFields(hs[0])) + Heads(hs[1..])
  }

  lemma {:induction false} HeadsSnoc(hs: seq<CentralHeader>, h: CentralHeader)
    ensures Heads(hs + [h]) == Heads(hs) + Cat(CentralFields(h))
  {
    hide CentralFields, Cat;
    if hs == [] {
      assert [h][1..] == [] && [] + [h] == [h];
    } else {
      HeadsSnoc(hs[1..], h);
      assert (hs + [h])[1..] == hs[1..] + [h];
    }
  }

  // ---- the writer ----

  /** The headers of a stored file; the checksum is a parameter. */
  function StoredLocal(f: File, crc: Bytes -> nat): LocalHeader {
    LocalHeader(20, 0, METHOD_STORED, 0, 0, crc(f.data), |f.data|, |f.data|, f.name, [])
  }

  function StoredCentral(f: File, crc: Bytes -> nat, localOffset: nat): CentralHeader {
    CentralHeader(20, 20, 0, METHOD_STORED, 0, 0, crc(f.data), |f.data|, |f.data|, 0, 0, 0, localOffset, f.name, [], [])
  }

  function StoredEnd(count: nat, size: nat, offset: nat): EndRecord {
    EndRecord(0, 0, count, count, size, offset, [])
  }

  function Locals(files: seq<File>, crc: Bytes -> nat): Bytes {
    if files == [] then []
    else
      var f := files[|files| - 1];
      Locals(files[..|files| - 1], crc) + Cat(LocalFields(StoredLocal(f, crc))) + f.data
  }

  function Headers(files: seq<File>, crc: Bytes -> nat): (hs: seq<CentralHeader>)
    ensures |hs| == |files|
  {
    if files == [] then []
    else
      var before := files[..|files| - 1];
      Headers(before, crc) + [StoredCentral(files[|files| - 1], crc, |Locals(before, crc)|)]
  }

  function Archive(files: seq<File>, crc: Bytes -> nat): Bytes {
    var locals, centrals := Locals(files, crc), Heads(Headers(files, crc));
    locals + centrals + Cat(EndFields(StoredEnd(|files|, |centrals|, |locals|)))
  }

  method BuildStored(files: seq<File>, crc: Bytes -> nat) returns (out: Bytes)
    ensures out == Archive(files, crc)
  {
    hide Cat, LocalFields, CentralFields, EndFields, Heads;
    out := [];
    var central: Bytes := [];
    NoHeads();
    for i := 0 to |files|
      invariant out == Locals(files[..i], crc) && central == Heads(Headers(files[..i], crc))
    {
      assert files[..i + 1][..i] == files[..i];
      var localOffset := |out|;
      out := out + Cat(LocalFields(StoredLocal(files[i], crc))) + files[i].data;
      HeadsSnoc(Headers(files[..i], crc), StoredCentral(files[i], crc, localOffset));
      central := central + Cat(CentralFields(StoredCentral(files[i], crc, localOffset)));
    }
    assert files[..|files|] == files;
    var centralOffset, centralSize := |out|, |central|;
    out := out + central;
    out := out + Cat(EndFields(StoredEnd(|files|, centralSize, centralOffset)));
  }

  lemma NoHeads()
    ensures Heads([]) == []
  {
  }

  // ---- the reader ----

  /** The last end-of-directory signature at or below `hi`, not looking below `lo`. */
  function ScanBack(data: Bytes, lo: nat, hi: int): Option<nat>
    decreases hi
  {
    if hi < lo then None
    else if ReadLe(data, hi, 4) == Some(EOCD_SIGNATURE) then Some(hi)
    else ScanBack(data, lo, hi - 1)
  }

  function Eocd(data: Bytes): Result<nat> {
    if |data| < 22 then Err(TooSmall)
    else
      var lo := if |data| < 22 + 0xFFFF then 0 else |data| - (22 + 0xFFFF);
      match ScanBack(data, lo, |data| - 22)
      case Some(offset) => Ok(offset)
      case None => Err(NoEocd)
  }

  /** Scanning backwards finds the last signature in reach. */
  method FindEocd(data: Bytes) returns (r: Result<nat>)
    ensures r == Eocd(data)
    ensures r.Ok? ==> r.value + 22 <= |data| && ReadLe(data, r.value, 4) == Some(EOCD_SIGNATURE)
                      && forall o: nat :: r.value < o && o + 22 <= |data| ==> ReadLe(data, o, 4) != Some(EOCD_SIGNATURE)
  {
    if |data| < 22 {
      return Err(TooSmall);
    }
    var searchStart := if |data| < 22 + 0xFFFF then 0 else |data| - (22 + 0xFFFF);
    var offset: int := |data| - 22;
    while offset >= searchStart
      invariant searchStart - 1 <= offset <= |data| - 22
      invariant ScanBack(data, searchStart, offset) == ScanBack(data, searchStart, |data| - 22)
      invariant forall o: nat :: offset < o && o + 22 <= |data| ==> ReadLe(data, o, 4) != Some(EOCD_SIGNATURE)
    {
      if ReadLe(data, offset, 4) == Some(EOCD_SIGNATURE) {
        return Ok(offset);
      }
      offset := offset - 1;
    }
    return Err(NoEocd);
  }

  /** The numbers of a central directory entry. */
  datatype Header = Header(compression: nat, compressedSize: nat, uncompressedSize: nat, nameLen: nat, extraLen: nat,
                           commentLen: nat, localHeaderOffset: nat)

  function HeaderAt(data: Bytes, offset: nat): Option<Header> {
    if offset + 46 > |data| then None
    else
      Some(Header(ReadLe(data, offset + 10, 2).value, ReadLe(data, offset + 20, 4).value,
                  ReadLe(data, offset + 24, 4).value, ReadLe(data, offset + 28, 2).value,
                  ReadLe(data, offset + 30, 2).value, ReadLe(data, offset + 32, 2).value,
                  ReadLe(data, offset + 42, 4).value))
  }

  /** The central directory entry at `offset`, and where the next one starts. */
  function EntryAt(data: Bytes, utf8: Bytes -> bool, offset: nat): Result<(ZipEntry, nat)> {
    if ReadLe(data, offset, 4) != Some(CENTRAL_DIR_SIGNATURE) then Err(MalformedCentral)
    else
      match HeaderAt(data, offset)
      case None => Err(TruncatedCentral)
      case Some(h) =>
        match Slice(data, offset + 46, h.nameLen)
        case None => Err(NameOutOfBounds)
        case Some(name) =>
          if !utf8(name) then Err(NameNotUtf8)
          else Ok((ZipEntry(name, h.compression, h.compressedSize, h.uncompressedSize, h.localHeaderOffset),
                   offset + 46 + h.nameLen + h.extraLen + h.commentLen))
  }

  function Prepend(entries: seq<ZipEntry>, r: Result<seq<ZipEntry>>): Result<seq<ZipEntry>> {
    if r.Ok? then Ok(entries + r.value) else r
  }

  /** `n` central directory entries from `offset` on. */
  function EntriesAt(data: Bytes, utf8: Bytes -> bool, offset: nat, n: nat): Result<seq<ZipEntry>>
    decreases n
  {
    if n == 0 then Ok([])
    else
      match EntryAt(data, utf8, offset)
      case Err(error) => Err(error)
      case Ok((entry, next)) => Prepend([entry], EntriesAt(data, utf8, next, n - 1))
  }

  lemma NextEntry(data: Bytes, utf8: Bytes -> bool, entries: seq<ZipEntry>, offset: nat, n: nat)
    requires n > 0
    ensures var e := EntryAt(data, utf8, offset);
            Prepend(entries, EntriesAt(data, utf8, offset, n))
            == if e.Err? then Err(e.error) else Prepend(entries + [e.value.0], EntriesAt(data, utf8, e.value.1, n - 1))
  {
    hide EntryAt;
    var e := EntryAt(data, utf8, offset);
    if e.Ok? {
      var rest := EntriesAt(data, utf8, e.value.1, n - 1);
      if rest.Ok? { assert entries + ([e.value.0] + rest.value) == (entries + [e.value.0]) + rest.value; }
    }
  }

  lemma NoEntries(data: Bytes, utf8: Bytes -> bool, entries: seq<ZipEntry>, offset: nat)
    ensures Prepend(entries, EntriesAt(data, utf8, offset, 0)) == Ok(entries)
    ensures forall n: nat :: Prepend([], EntriesAt(data, utf8, offset, n)) == EntriesAt(data, utf8, offset, n)
  {
    hide EntryAt;
    assert entries + [] == entries;
    forall n: nat ensures Prepend([], EntriesAt(data, utf8, offset, n)) == EntriesAt(data, utf8, offset, n) {
      var r := EntriesAt(data, utf8, offset, n);
      if r.Ok? { assert [] + r.value == r.value; }
    }
  }

  method ReadDirectory(data: Bytes, utf8: Bytes -> bool, start: nat, count: nat) returns (r: Result<seq<ZipEntry>>)
    ensures r == EntriesAt(data, utf8, start, count)
  {
    hide EntryAt, EntriesAt, Prepend;
    var entries: seq<ZipEntry> := [];
    var offset := start;
    NoEntries(data, utf8, [], start);
    for i := 0 to count
      invariant EntriesAt(data, utf8, start, count) == Prepend(entries, EntriesAt(data, utf8, offset, count - i))
    {
      NextEntry(data, utf8, entries, offset, count - i);
      var e := EntryAt(data, utf8, offset);
      if e.Err? {
        return Err(e.error);
      }
      entries := entries + [e.value.0];
      offset := e.value.1;
    }
    NoEntries(data, utf8, entries, offset);
    return Ok(entries);
  }

  function Directory(data: Bytes, utf8: Bytes -> bool): Result<seq<ZipEntry>> {
    match Eocd(data)
    case Err(error) => Err(error)
    case Ok(eocd) =>
      var count, offset := ReadLe(data, eocd + 10, 2), ReadLe(data, eocd + 16, 4);
      if count.None? || offset.None? then Err(TruncatedEocd) else EntriesAt(data, utf8, offset.value, count.value)
  }

  method ListEntries(data: Bytes, utf8: Bytes -> bool) returns (r: Result<seq<ZipEntry>>)
    ensures r == Directory(data, utf8)
  {
    hide Eocd, ReadLe, EntriesAt;
    var eocd := FindEocd(data);
    if eocd.Err? {
      return Err(eocd.error);
    }
    var count, centralDirOffset := ReadLe(data, eocd.value + 10, 2), ReadLe(data, eocd.value + 16, 4);
    if count.None? || centralDirOffset.None? {
      return Err(TruncatedEocd);
    }
    r := ReadDirectory(data, utf8, centralDirOffset.value, count.value);
  }

  /** The stored bytes an entry points to. */
  function RawEntry(data: Bytes, entry: ZipEntry): Result<Bytes> {
    var offset := entry.localHeaderOffset;
    if ReadLe(data, offset, 4) != Some(LOCAL_FILE_SIGNATURE) then Err(MalformedLocal)
    else
      var nameLen, extraLen := ReadLe(data, offset + 26, 2), ReadLe(data, offset + 28, 2);
      if nameLen.None? || extraLen.None? then Err(TruncatedLocal)
      else
        var raw := Slice(data, offset + 30 + nameLen.value + extraLen.value, entry.compressedSize);
        if raw.None? then Err(DataOutOfBounds) else Ok(raw.value)
  }

  method ReadEntry(data: Bytes, entry: ZipEntry) returns (r: Result<Bytes>)
    ensures RawEntry(data, entry).Err? ==> r == Err(RawEntry(data, entry).error)
    ensures RawEntry(data, entry).Ok? && entry.compression == 0 ==> r == RawEntry(data, entry)
    ensures RawEntry(data, entry).Ok? && entry.compression == 8 ==>
              r == match Deflate.StreamAt(Bits.BitsOf(RawEntry(data, entry).value), 0, [])
                   case Some(out) => Ok(out)
                   case None => Err(CorruptStream)
    ensures RawEntry(data, entry).Ok? && entry.compression !in {0, 8} ==>
              r == Err(UnsupportedMethod)
  {
    var raw := RawEntry(data, entry);
    if raw.Err? {
      return Err(raw.error);
    }
    if entry.compression == METHOD_STORED {
      return raw;
    } else if entry.compression == METHOD_DEFLATE {
      var out := Deflate.Inflate(raw.value);
      if out.Some? {
        return Ok(out.value);
      }
      return Err(CorruptStream);
    }
    return Err(UnsupportedMethod);
  }
}
