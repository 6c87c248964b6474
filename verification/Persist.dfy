/** Saving the RAM file system to a disk and loading it back: kernel/src/fs/persist.rs. */
module Persist {
  import opened Common
  import opened LittleEndian

  const SECTOR: nat := 512

  type Sector = b: Bytes | |b| == SECTOR witness seq(SECTOR, _ => 0)
  type Files = map<Bytes, Bytes>

  /** "MOONFS1\0" */
  const MAGIC: Bytes := [0x4D, 0x4F, 0x4F, 0x4E, 0x46, 0x53, 0x31, 0]

  lemma MagicIsText()
    ensures |MAGIC| == 8 && MAGIC[7] == 0 && forall i :: 0 <= i < 7 ==> MAGIC[i] == "MOONFS1"[i] as int
  {
  }

  function Zeros(n: nat): (z: Bytes)
    ensures |z| == n
  {
    seq(n, _ => 0)
  }

  /** The file part of kernel/src/fs/ramfs.rs: contents by path. */
  class RamFs {
    var files: Files

    constructor ()
      ensures files == map[]
    {
      files := map[];
    }

    method Write(path: Bytes, data: Bytes)
      modifies this
      ensures files == old(files)[path := data]
    {
      files := files[path := data];
    }
  }

  // ---- the payload ----

  function FileFields(path: Bytes, data: Bytes): seq<Bytes> { [ToLe(|path|, 2), path, ToLe(|data|, 4), data] }

  /** The files named in `order`, one after the other. */
  function Payload(order: seq<Bytes>, files: Files): Bytes
    requires forall p :: p in order ==> p in files
  {
    if order == [] then [] else Cat(FileFields(order[0], files[order[0]])) + Payload(order[1..], files)
  }

  /** The order in which the tree lists its files: each once. */
  ghost predicate IsListing(order: seq<Bytes>, files: Files) {
    && (forall p :: p in order <==> p in files)
    && (forall i, j :: 0 <= i < j < |order| ==> order[i] != order[j])
  }

  // ---- the disk ----

  /** The `i`-th sector of some data, zero-padded at the end. */
  function Chunk(data: Bytes, i: nat): Sector
    requires i * SECTOR < |data|
  {
    var end := if (i + 1) * SECTOR <= |data| then (i + 1) * SECTOR else |data|;
    data[i * SECTOR..end] + Zeros(SECTOR - (end - i * SECTOR))
  }

  function SectorCount(len: nat): nat { (len + SECTOR - 1) / SECTOR }

  /** As many sectors of 512 bytes as the data needs, and no more. */
  lemma SectorsHold(len: nat)
    ensures 512 * SectorCount(len) >= len > 512 * SectorCount(len) - 512
  {
  }

  /** The disk once the first `n` sectors of `data` are written from sector 1 on; sectors the disk lacks are lost. */
  function Written(disk: seq<Sector>, data: Bytes, n: nat): seq<Sector>
    requires n <= SectorCount(|data|)
  {
    seq(|disk|, i requires 0 <= i < |disk| => if 1 <= i <= n then Chunk(data, i - 1) else disk[i])
  }

  function Superblock(payload: Bytes, crc: Bytes -> nat): Sector {
    MAGIC + ToLe(|payload|, 4) + ToLe(crc(payload), 4) + Zeros(SECTOR - 16)
  }

  /** The disk after the first `k` sector writes of a save: the payload's sectors, and the superblock last. */
  function AfterWrites(disk: seq<Sector>, payload: Bytes, crc: Bytes -> nat, k: nat): seq<Sector> {
    var n := SectorCount(|payload|);
    if k <= n then Written(disk, payload, k)
    else
      var done := Written(disk, payload, n);
      if done == [] then [] else done[0 := Superblock(payload, crc)]
  }

  function ReadAt(disk: seq<Sector>, lba: nat): Sector { if lba < |disk| then disk[lba] else Zeros(SECTOR) }

  function ReadRun(disk: seq<Sector>, lba: nat, count: nat): (out: Bytes)
    ensures |out| == count * SECTOR
  {
    if count == 0 then [] else ReadRun(disk, lba, count - 1) + ReadAt(disk, lba + count - 1)
  }

  /** The payload a load accepts: as long as the superblock says, and with its checksum. */
  function Snapshot(disk: seq<Sector>, crc: Bytes -> nat): Option<Bytes> {
    if disk == [] || disk[0][..8] != MAGIC then None
    else
      var len, expected := Le(disk[0][8..12]), Le(disk[0][12..16]);
      var count := if SectorCount(len) == 0 then 1 else SectorCount(len);
      var payload := ReadRun(disk, 1, count)[..len];
      if crc(payload) != expected then None else Some(payload)
  }

  // ---- parsing the payload ----

  /** The file at `cursor`: its path, its contents, and where the next one starts. */
  function FileAt(payload: Bytes, cursor: nat, utf8: Bytes -> bool): (r: Option<(Bytes, Bytes, nat)>)
    ensures r.Some? ==> cursor < r.value.2 <= |payload| && |r.value.0| < 0x1_0000
  {
    if cursor + 2 > |payload| then None
    else
      var pathLen := Le(payload[cursor..cursor + 2]);
      PathLenBound(payload[cursor..cursor + 2]);
      var p := cursor + 2;
      if p + pathLen > |payload| || !utf8(payload[p..p + pathLen]) then None
      else
        var q := p + pathLen;
        if q + 4 > |payload| then None
        else
          var dataLen := Le(payload[q..q + 4]);
          if q + 4 + dataLen > |payload| then None
          else Some((payload[p..q], payload[q + 4..q + 4 + dataLen], q + 4 + dataLen))
  }

  lemma PathLenBound(b: Bytes)
    requires |b| == 2
    ensures Le(b) < 0x1_0000
  {
    WordBounds();
  }

  /** The files of the payload from `cursor` on, added to `files`; the first malformed one ends the parse. */
  function Restored(payload: Bytes, cursor: nat, utf8: Bytes -> bool, files: Files): Files
    decreases |payload| - cursor
  {
    match FileAt(payload, cursor, utf8)
    case None => files
    case Some((path, data, next)) => Restored(payload, next, utf8, files[path := data])
  }

  // ---- save and load ----

  /** Writes the sectors of `data` from sector 1 on, until the power fails after `power` writes. */
  method WriteSectors(disk: array<Sector>, data: Bytes, power: nat) returns (left: nat)
    modifies disk
    ensures disk[..] == Written(old(disk[..]), data, if power < SectorCount(|data|) then power else SectorCount(|data|))
    ensures left == if power < SectorCount(|data|) then 0 else power - SectorCount(|data|)
  {
    left := power;
    var i := 0;
    while i < SectorCount(|data|) && left > 0
      invariant 0 <= i <= SectorCount(|data|) && left == power - i >= 0
      invariant disk[..] == Written(old(disk[..]), data, i)
    {
      if 1 + i < disk.Length {
        disk[1 + i] := Chunk(data, i);
      }
      i := i + 1;
      left := left - 1;
    }
  }

  method Serialize(root: RamFs, order: seq<Bytes>) returns (payload: Bytes)
    requires forall p :: p in order ==> p in root.files
    ensures payload == Payload(order, root.files)
  {
    hide FileFields, Cat;
    payload := [];
    for i := 0 to |order|
      invariant payload == Payload(order[..i], root.files)
    {
      PayloadSnoc(order[..i], order[i], root.files);
      assert order[..i + 1] == order[..i] + [order[i]];
      payload := payload + Cat(FileFields(order[i], root.files[order[i]]));
    }
    assert order[..|order|] == order;
  }

  /** Serializes the tree and writes it out, until the power fails after `power` sector writes. */
  method Save(disk: array<Sector>, root: RamFs, order: seq<Bytes>, crc: Bytes -> nat, power: nat)
    requires IsListing(order, root.files)
    modifies disk
    ensures disk[..] == AfterWrites(old(disk[..]), Payload(order, root.files), crc, power)
  {
    hide Superblock, Payload, Chunk, SectorCount;
    var payload := Serialize(root, order);
    var superblock := Superblock(payload, crc);
    var left := WriteSectors(disk, payload, power);
    if left > 0 && disk.Length > 0 {
      disk[0] := superblock;
    }
  }

  lemma {:induction false} PayloadSnoc(order: seq<Bytes>, p: Bytes, files: Files)
    requires p in files && forall q :: q in order ==> q in files
    ensures Payload(order + [p], files) == Payload(order, files) + Cat(FileFields(p, files[p]))
  {
    if order == [] {
      assert [p][1..] == [];
    } else {
      PayloadSnoc(order[1..], p, files);
      assert (order + [p])[1..] == order[1..] + [p];
    }
  }

  method ReadSectors(disk: array<Sector>, startLba: nat, count: nat) returns (out: Bytes)
    ensures out == ReadRun(disk[..], startLba, count)
  {
    out := [];
    for i := 0 to count
      invariant out == ReadRun(disk[..], startLba, i)
    {
      var sector: Sector := Zeros(SECTOR);
      if startLba + i < disk.Length {
        sector := disk[startLba + i];
      }
      out := out + sector;
    }
  }

  /** Restores what the disk holds, if its checksum is right. */
  method Load(disk: array<Sector>, root: RamFs, crc: Bytes -> nat, utf8: Bytes -> bool) returns (ok: bool)
    modifies root
    ensures ok == Snapshot(disk[..], crc).Some?
    ensures root.files == if ok then Restored(Snapshot(disk[..], crc).value, 0, utf8, old(root.files))
            else old(root.files)
  {
    if disk.Length == 0 {
      return false;
    }
    var superblock := disk[0];
    if superblock[..8] != MAGIC {
      return false;
    }
    var len, expectedCrc := Le(superblock[8..12]), Le(superblock[12..16]);
    var sectorCount := if SectorCount(len) == 0 then 1 else SectorCount(len);
    var payload := ReadSectors(disk, 1, sectorCount);
    payload := payload[..len];
    if crc(payload) != expectedCrc {
      return false;
    }
    RestoreFiles(payload, root, utf8);
    return true;
  }

  method RestoreFiles(payload: Bytes, root: RamFs, utf8: Bytes -> bool)
    modifies root
    ensures root.files == Restored(payload, 0, utf8, old(root.files))
  {
    var cursor := 0;
    while true
      invariant 0 <= cursor <= |payload|
      invariant Restored(payload, cursor, utf8, root.files) == Restored(payload, 0, utf8, old(root.files))
      decreases |payload| - cursor
    {
      var next := FileAt(payload, cursor, utf8);
      if next.None? {
        return;
      }
      root.Write(next.value.0, next.value.1);
      cursor := next.value.2;
    }
  }
}
