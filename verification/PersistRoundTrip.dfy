/** What a save leaves on the disk, completed or cut short, and what a load makes of it. */
module PersistRoundTrip {
  import opened Common
  import opened LittleEndian
  import opened Persist

  // ---- the sectors ----

  /** Reading the first `n` sectors back gives the first `n` sectors' worth of the data. */
  lemma {:induction false} ReadsWritten(disk: seq<Sector>, data: Bytes, n: nat)
    requires n <= SectorCount(|data|) < |disk| && forall i :: 1 <= i <= SectorCount(|data|) ==>
             disk[i] == Chunk(data, i - 1)
    ensures var m := if n * SECTOR < |data| then n * SECTOR else |data|;
            m <= n * SECTOR && ReadRun(disk, 1, n)[..m] == data[..m]
  {
    if n > 0 {
      var a := (n - 1) * SECTOR;
      assert a < |data|;
      var end := if n * SECTOR <= |data| then n * SECTOR else |data|;
      ReadsWritten(disk, data, n - 1);
      JoinChunk(ReadRun(disk, 1, n - 1), data, a, end, Zeros(n * SECTOR - end));
      assert disk[n] == data[a..end] + Zeros(n * SECTOR - end);
    }
  }

  lemma JoinChunk(run: Bytes, data: Bytes, a: nat, end: nat, pad: Bytes)
    requires |run| == a <= end <= |data| && run[..a] == data[..a]
    ensures (run + (data[a..end] + pad))[..end] == data[..end]
  {
    assert run == data[..a];
  }

  lemma SuperblockFields(payload: Bytes, crc: Bytes -> nat)
    requires |payload| < TWO_32 && crc(payload) < TWO_32
    ensures var s := Superblock(payload, crc);
            s[..8] == MAGIC && Le(s[8..12]) == |payload| && Le(s[12..16]) == crc(payload)
  {
    hide Le, ToLe, Pow2;
    WordBounds();
    LeToLe(|payload|, 4);
    LeToLe(crc(payload), 4);
    Pieces(MAGIC, ToLe(|payload|, 4), ToLe(crc(payload), 4), Zeros(SECTOR - 16));
  }

  lemma Pieces(a: Bytes, b: Bytes, c: Bytes, d: Bytes)
    ensures var s := a + b + c + d; var i, j := |a|, |a| + |b|;
            s[..i] == a && s[i..j] == b && s[j..j + |c|] == c
  {
    var s := a + b + c + d;
    assert s[..|a|] == a;
    assert s[|a|..|a| + |b|] == b;
    assert s[|a| + |b|..|a| + |b| + |c|] == c;
  }

  /** A completed save is what the next load accepts, whatever the disk held before and however the payload ends. */
  lemma SaveIsAccepted(disk: seq<Sector>, payload: Bytes, crc: Bytes -> nat, k: nat)
    requires |payload| < TWO_32 && crc(payload) < TWO_32 && SectorCount(|payload|) < |disk|
             && SectorCount(|payload|) < k
    ensures Snapshot(AfterWrites(disk, payload, crc, k), crc) == Some(payload)
  {
    hide Chunk, Superblock, ReadRun, Le;
    var after := AfterWrites(disk, payload, crc, k);
    SuperblockFields(payload, crc);
    ReadsWritten(after, payload, SectorCount(|payload|));
    WholeRun(after, payload);
  }

  lemma WholeRun(after: seq<Sector>, payload: Bytes)
    requires var n := SectorCount(|payload|); |payload| <= n * SECTOR && ReadRun(after, 1, n)[..|payload|] == payload
    ensures var count := if SectorCount(|payload|) == 0 then 1 else SectorCount(|payload|);
            |payload| <= count * SECTOR && ReadRun(after, 1, count)[..|payload|] == payload
  {
    hide ReadRun;
    if SectorCount(|payload|) == 0 { assert payload == []; }
  }

  /**
   After a crash before the superblock is written, a load accepts at most bytes that have the length and the checksum of
   the snapshot that was there before; without a collision, exactly that snapshot.
   */
  lemma CrashKeepsSuperblock(disk: seq<Sector>, payload: Bytes, crc: Bytes -> nat, k: nat)
    requires k <= SectorCount(|payload|)
    ensures var after := Snapshot(AfterWrites(disk, payload, crc, k), crc);
            && (after.Some? ==> disk != [] && disk[0][..8] == MAGIC && |after.value| == Le(disk[0][8..12])
                                && crc(after.value) == Le(disk[0][12..16]))
            && (forall before :: Snapshot(disk, crc) == Some(before) && after.Some? ==>
                  |after.value| == |before| && crc(after.value) == crc(before))
  {
    hide Chunk, ReadRun, Le;
    CountCovers(disk);
  }

  lemma CountCovers(disk: seq<Sector>)
    ensures forall len: nat :: len <= SectorCount(len) * SECTOR
  {
  }

  /** How many sectors a load reads for a payload of `len` bytes. */
  function RunLength(len: nat): nat { if SectorCount(len) == 0 then 1 else SectorCount(len) }

  /** What a save of `payload`, cut short after `k` sectors, leaves of a snapshot of `len` bytes. */
  function LeftBy(disk: seq<Sector>, payload: Bytes, k: nat, len: nat): Bytes
    requires k <= SectorCount(|payload|)
  {
    CountCovers(disk);
    ReadRun(Written(disk, payload, k), 1, RunLength(len))[..len]
  }

  /**
   A crash before the superblock is written leaves the old snapshot loadable exactly when its bytes are still on the
   disk, and it is atomic, the old snapshot or none, exactly when they are or the bytes there have another checksum.
   */
  lemma CrashIsAtomic(disk: seq<Sector>, payload: Bytes, crc: Bytes -> nat, k: nat, before: Bytes)
    requires k <= SectorCount(|payload|) && Snapshot(disk, crc) == Some(before)
    ensures var after, left := Snapshot(AfterWrites(disk, payload, crc, k), crc), LeftBy(disk, payload, k, |before|);
            && (after == Some(before) <==> left == before)
            && (after in {None, Some(before)} <==> left == before || crc(left) != crc(before))
  {
    hide Chunk, ReadRun, Le;
    CountCovers(disk);
  }

  /** The sectors written so far hold what the old snapshot had in their place. */
  ghost predicate Unharmed(disk: seq<Sector>, payload: Bytes, k: nat, before: Bytes)
    requires k <= SectorCount(|payload|)
  {
    forall i: nat :: i < k && i + 1 < |disk| && i * SECTOR < |before| ==> SameThere(payload, before, i)
  }

  /** Sector `i` of the new payload begins with what the old one has there. */
  predicate SameThere(payload: Bytes, before: Bytes, i: nat)
    requires i * SECTOR < |payload| && i * SECTOR < |before|
  {
    var end := if (i + 1) * SECTOR <= |before| then (i + 1) * SECTOR else |before|;
    Chunk(payload, i)[..end - i * SECTOR] == before[i * SECTOR..end]
  }

  /** Whether the old bytes are still there can be told from the sectors overwritten so far. */
  lemma LeftIsOld(disk: seq<Sector>, payload: Bytes, crc: Bytes -> nat, k: nat, before: Bytes)
    requires k <= SectorCount(|payload|) && Snapshot(disk, crc) == Some(before)
    ensures LeftBy(disk, payload, k, |before|) == before <==> Unharmed(disk, payload, k, before)
  {
    hide Chunk, ReadRun, Snapshot, Written, LeftBy;
    var left := LeftBy(disk, payload, k, |before|);
    LeftLength(disk, payload, k, |before|);
    forall p: nat | p < |before|
      ensures left[p] == if p / SECTOR < k && p / SECTOR + 1 < |disk|
                         then Chunk(payload, p / SECTOR)[p % SECTOR] else before[p]
    {
      LeftByte(disk, payload, crc, k, before, p);
    }
    if Unharmed(disk, payload, k, before) {
      forall p: nat | p < |before| ensures left[p] == before[p] {
        ByteOfSector(payload, before, p, k, |disk|);
      }
    }
    if left == before {
      forall i: nat | i < k && i + 1 < |disk| && i * SECTOR < |before| ensures SameThere(payload, before, i) {
        SectorOfBytes(payload, before, i, left);
      }
    }
  }

  lemma LeftLength(disk: seq<Sector>, payload: Bytes, k: nat, len: nat)
    requires k <= SectorCount(|payload|)
    ensures |LeftBy(disk, payload, k, len)| == len
  {
    CountCovers(disk);
  }

  lemma LeftByte(disk: seq<Sector>, payload: Bytes, crc: Bytes -> nat, k: nat, before: Bytes, p: nat)
    requires k <= SectorCount(|payload|) && Snapshot(disk, crc) == Some(before) && p < |before|
    ensures |LeftBy(disk, payload, k, |before|)| == |before|
    ensures LeftBy(disk, payload, k, |before|)[p]
            == if p / SECTOR < k && p / SECTOR + 1 < |disk| then Chunk(payload, p / SECTOR)[p % SECTOR] else before[p]
  {
    hide Chunk, ReadRun, Snapshot;
    SnapshotBytes(disk, crc, before);
    CountCovers(disk);
    ReadRunAt(disk, RunLength(|before|), p);
    ReadRunAt(Written(disk, payload, k), RunLength(|before|), p);
  }

  lemma SnapshotBytes(disk: seq<Sector>, crc: Bytes -> nat, before: Bytes)
    requires Snapshot(disk, crc) == Some(before)
    ensures |before| <= RunLength(|before|) * SECTOR && before == ReadRun(disk, 1, RunLength(|before|))[..|before|]
  {
    hide ReadRun, Le;
    CountCovers(disk);
  }

  lemma {:induction false} ReadRunAt(disk: seq<Sector>, count: nat, p: nat)
    requires p < count * SECTOR
    ensures ReadRun(disk, 1, count)[p] == ReadAt(disk, 1 + p / SECTOR)[p % SECTOR]
  {
    if p < (count - 1) * SECTOR {
      ReadRunAt(disk, count - 1, p);
    } else {
      DivUnique(p, SECTOR, count - 1, p - (count - 1) * SECTOR);
    }
  }

  lemma ByteOfSector(payload: Bytes, before: Bytes, p: nat, k: nat, sectors: nat)
    requires p < |before| && k <= SectorCount(|payload|)
    requires forall i: nat :: i < k && i + 1 < sectors && i * SECTOR < |before| ==> SameThere(payload, before, i)
    ensures p / SECTOR < k && p / SECTOR + 1 < sectors ==>
              p / SECTOR * SECTOR < |payload| && Chunk(payload, p / SECTOR)[p % SECTOR] == before[p]
  {
    var i := p / SECTOR;
    if i < k && i + 1 < sectors {
      assert SameThere(payload, before, i);
      var end := if (i + 1) * SECTOR <= |before| then (i + 1) * SECTOR else |before|;
      hide Chunk;
      assert before[i * SECTOR..end][p % SECTOR] == before[p];
    }
  }

  lemma SectorOfBytes(payload: Bytes, before: Bytes, i: nat, left: Bytes)
    requires i * SECTOR < |payload| && i * SECTOR < |before| && left == before
    requires forall p: nat :: p < |before| && p / SECTOR == i ==> left[p] == Chunk(payload, i)[p % SECTOR]
    ensures SameThere(payload, before, i)
  {
    hide Chunk;
    var end := if (i + 1) * SECTOR <= |before| then (i + 1) * SECTOR else |before|;
    forall q: nat | q < end - i * SECTOR ensures Chunk(payload, i)[q] == before[i * SECTOR + q] {
      DivUnique(i * SECTOR + q, SECTOR, i, q);
    }
  }

  /**
   So a snapshot can be lost: two trees with one file "a" each, on any disk with room, for every checksum that tells
   their payloads apart. The second save is cut short after its only payload sector.
   */
  lemma CrashCanLoseOld(disk: seq<Sector>, crc: Bytes -> nat)
    requires |disk| >= 2
    requires var old', new' := Payload([[0x61]], map[[0x61] := [1]]), Payload([[0x61]], map[[0x61] := [2]]);
             crc(old') != crc(new') && crc(old') < TWO_32
    ensures var old', new' := Payload([[0x61]], map[[0x61] := [1]]), Payload([[0x61]], map[[0x61] := [2]]);
            var saved := AfterWrites(disk, old', crc, 2);
            && Snapshot(saved, crc) == Some(old')
            && SectorCount(|new'|) == 1 && Snapshot(AfterWrites(saved, new', crc, 1), crc) == None
  {
    var path: Bytes := [0x61];
    OneFile(path, [1]);
    OneFile(path, [2]);
    ShortSaveLosesOld(disk, Payload([path], map[path := [1]]), Payload([path], map[path := [2]]), crc);
  }

  lemma OneFile(path: Bytes, data: Bytes)
    requires |path| == 1 && |data| == 1
    ensures |Payload([path], map[path := data])| == 8
  {
    FileWidths(path, data);
    assert [path][1..] == [];
  }

  /** A save over a snapshot of the same length, of one sector, cut short just before the superblock. */
  lemma ShortSaveLosesOld(disk: seq<Sector>, before: Bytes, payload: Bytes, crc: Bytes -> nat)
    requires |disk| >= 2 && 0 < |before| == |payload| <= SECTOR && crc(before) != crc(payload) && crc(before) < TWO_32
    ensures var saved := AfterWrites(disk, before, crc, 2);
            Snapshot(saved, crc) == Some(before) && Snapshot(AfterWrites(saved, payload, crc, 1), crc) == None
  {
    hide Chunk, ReadRun, Le, Superblock, Snapshot;
    var saved := AfterWrites(disk, before, crc, 2);
    SaveIsAccepted(disk, before, crc, 2);
    CrashIsAtomic(saved, payload, crc, 1, before);
    var over := Written(saved, payload, 1);
    ReadsWritten(over, payload, 1);
    assert LeftBy(saved, payload, 1, |before|) == payload;
  }

  // ---- the files ----

  lemma FileWidths(path: Bytes, data: Bytes)
    ensures var w := FileFields(path, data);
            |w| == 4 && Width(w, 0) == 0 && Width(w, 1) == 2 && Width(w, 2) == 2 + |path| && Width(w, 3) == 6 + |path|
    ensures |Cat(FileFields(path, data))| == 6 + |path| + |data|
  {
    CatWidth(FileFields(path, data));
  }

  /** A file is read back, wherever it stands, exactly when its path and its contents fit their length fields. */
  lemma FileReadBack(pre: Bytes, path: Bytes, data: Bytes, post: Bytes, utf8: Bytes -> bool)
    requires utf8(path)
    ensures var rec := Cat(FileFields(path, data));
            FileAt(pre + rec + post, |pre|, utf8) == Some((path, data, |pre| + |rec|))
            <==> |path| < 0x1_0000 && |data| < TWO_32
  {
    var w := FileFields(path, data);
    var d := pre + Cat(w) + post;
    FileWidths(path, data);
    hide Cat, Width, Le, ToLe, Pow2;
    WordBounds();
    if |path| < 0x1_0000 && |data| < TWO_32 {
      NumberAt(pre, w, post, 0, |path|, 2);
      FieldAt(pre, w, post, 1);
      NumberAt(pre, w, post, 2, |data|, 4);
      FieldAt(pre, w, post, 3);
    }
    DataBounded(d, |pre|, utf8);
  }

  /** A file is found in a payload if and only if its record is there in full, with a path that is UTF-8. */
  lemma FileExactly(payload: Bytes, cursor: nat, utf8: Bytes -> bool, path: Bytes, data: Bytes, next: nat)
    ensures var rec := Cat(FileFields(path, data));
            FileAt(payload, cursor, utf8) == Some((path, data, next))
            <==> && utf8(path) && |path| < 0x1_0000 && |data| < TWO_32
                 && Slice(payload, cursor, |rec|) == Some(rec) && next == cursor + |rec|
  {
    hide Cat;
    var rec := Cat(FileFields(path, data));
    if utf8(path) && Slice(payload, cursor, |rec|) == Some(rec) {
      var pre, post := payload[..cursor], payload[cursor + |rec|..];
      assert payload == pre + rec + post;
      FileReadBack(pre, path, data, post, utf8);
    }
    if FileAt(payload, cursor, utf8) == Some((path, data, next)) {
      FileStands(payload, cursor, utf8);
    }
  }

  lemma FileStands(payload: Bytes, cursor: nat, utf8: Bytes -> bool)
    requires FileAt(payload, cursor, utf8).Some?
    ensures var (path, data, next) := FileAt(payload, cursor, utf8).value; var rec := Cat(FileFields(path, data));
            && utf8(path) && |path| < 0x1_0000 && |data| < TWO_32
            && Slice(payload, cursor, |rec|) == Some(rec) && next == cursor + |rec|
  {
    hide Cat, Le, ToLe;
    var (path, data, next) := FileAt(payload, cursor, utf8).value;
    var w := FileFields(path, data);
    FileWidths(path, data);
    NumberStands(payload, cursor, 2);
    NumberStands(payload, cursor + 2 + |path|, 4);
    FieldsStand(payload, cursor, w);
  }

  lemma DataBounded(payload: Bytes, cursor: nat, utf8: Bytes -> bool)
    ensures FileAt(payload, cursor, utf8).Some? ==> |FileAt(payload, cursor, utf8).value.1| < TWO_32
  {
    WordBounds();
    hide Pow2, Le;
  }

  /** `files` with those named in `order` added from `from`. */
  function Added(order: seq<Bytes>, from: Files, files: Files): Files
    requires forall p :: p in order ==> p in from
  {
    if order == [] then files else Added(order[1..], from, files[order[0] := from[order[0]]])
  }

  lemma {:induction false} AddedAll(order: seq<Bytes>, from: Files, files: Files)
    requires forall p :: p in order ==> p in from
    ensures forall p :: p in Added(order, from, files) <==> p in order || p in files
    ensures forall p :: p in order ==> Added(order, from, files)[p] == from[p]
    ensures forall p :: p in files && p !in order ==> Added(order, from, files)[p] == files[p]
  {
    if order != [] {
      AddedAll(order[1..], from, files[order[0] := from[order[0]]]);
      assert order == [order[0]] + order[1..];
    }
  }

  lemma {:induction false} ParsesBack(pre: Bytes, order: seq<Bytes>, from: Files, utf8: Bytes -> bool, files: Files)
    requires forall p :: p in order ==> p in from && utf8(p) && |p| < 0x1_0000 && |from[p]| < TWO_32
    ensures Restored(pre + Payload(order, from), |pre|, utf8, files) == Added(order, from, files)
    decreases |order|
  {
    hide FileFields, Cat, FileAt;
    if order == [] {
      NothingLeft(pre, utf8);
      assert pre + Payload(order, from) == pre;
    } else {
      var p := order[0];
      var rec, rest := Cat(FileFields(p, from[p])), Payload(order[1..], from);
      FileReadBack(pre, p, from[p], rest, utf8);
      assert pre + Payload(order, from) == pre + rec + rest;
      ParsesBack(pre + rec, order[1..], from, utf8, files[p := from[p]]);
    }
  }

  lemma NothingLeft(payload: Bytes, utf8: Bytes -> bool)
    ensures FileAt(payload, |payload|, utf8) == None
  {
  }

  lemma {:induction false} PathsBounded(payload: Bytes, cursor: nat, utf8: Bytes -> bool, files: Files)
    requires forall p :: p in files ==> |p| < 0x1_0000
    ensures forall p :: p in Restored(payload, cursor, utf8, files) ==> |p| < 0x1_0000
    decreases |payload| - cursor
  {
    var f := FileAt(payload, cursor, utf8);
    if f.Some? {
      PathsBounded(payload, f.value.2, utf8, files[f.value.0 := f.value.1]);
    }
  }

  lemma {:induction false} DataFits(order: seq<Bytes>, files: Files)
    requires forall p :: p in order ==> p in files
    ensures forall p :: p in order ==> |files[p]| <= |Payload(order, files)|
  {
    if order != [] {
      DataFits(order[1..], files);
      FileWidths(order[0], files[order[0]]);
      assert order == [order[0]] + order[1..];
    }
  }

  /** A tree below 4 GiB is restored into an empty one exactly when every path is shorter than 2^16 bytes. */
  lemma RestoresExactly(order: seq<Bytes>, files: Files, utf8: Bytes -> bool)
    requires IsListing(order, files) && |Payload(order, files)| < TWO_32 && forall p :: p in files ==> utf8(p)
    ensures Restored(Payload(order, files), 0, utf8, map[]) == files <==> forall p :: p in files ==> |p| < 0x1_0000
  {
    hide Restored, Payload, Added;
    var payload := Payload(order, files);
    PathsBounded(payload, 0, utf8, map[]);
    DataFits(order, files);
    if forall p :: p in files ==> |p| < 0x1_0000 {
      ParsesBack([], order, files, utf8, map[]);
      AddedAll(order, files, map[]);
      assert [] + payload == payload;
      assert Added(order, files, map[]) == files;
    }
  }

  /** Saving, restarting with an empty tree, and loading. */
  method Reboot(disk: array<Sector>, root: RamFs, order: seq<Bytes>, crc: Bytes -> nat, utf8: Bytes -> bool, power: nat)
    returns (again: RamFs, ok: bool)
    requires IsListing(order, root.files) && forall p :: p in root.files ==> utf8(p)
    requires |Payload(order, root.files)| < TWO_32 && crc(Payload(order, root.files)) < TWO_32
    requires SectorCount(|Payload(order, root.files)|) < disk.Length
             && SectorCount(|Payload(order, root.files)|) < power
    modifies disk
    ensures ok && (again.files == root.files <==> forall p :: p in root.files ==> |p| < 0x1_0000)
  {
    hide Payload, AfterWrites, Snapshot, Restored, SectorCount;
    SaveIsAccepted(disk[..], Payload(order, root.files), crc, power);
    RestoresExactly(order, root.files, utf8);
    Save(disk, root, order, crc, power);
    again := new RamFs();
    ok := Load(disk, again, crc, utf8);
  }
}
