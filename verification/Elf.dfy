/** Loading one segment of an executable: `load_segment` in kernel/src/elf.rs, lines 88-144. */
module Elf {
  import opened Common
  import opened FrameAllocator
  import opened PageRights
  import opened PageTree
  import opened Paging

  const PF_W: nat := 2

  /** The two errors `load_segment` returns, and its two panics: a slice out of bounds, and no memory for tables. */
  datatype Outcome = Loaded | OutOfMemory | PageVanished | OutOfBounds | NoTableMemory

  function PageFlags(flags: nat): nat { 5 + if flags / PF_W % 2 == 1 then 2 else 0 }

  function PageBase(a: nat): nat { a / PAGE_SIZE * PAGE_SIZE }

  /** How many pages a segment spans. */
  function PageCount(vaddr: nat, memsz: nat): nat { CeilDiv(vaddr + memsz, PAGE_SIZE) - vaddr / PAGE_SIZE }

  /** What address `a` holds once `copied` bytes are in place: a byte of the file, or zero. */
  function Content(data: Bytes, offset: nat, vaddr: nat, copied: nat, a: nat): byte {
    if vaddr <= a < vaddr + copied && offset + a - vaddr < |data| then data[offset + a - vaddr] else 0
  }

  /** The byte a process reads at `a`. */
  function ReadByte(t: Tables, pages: map<nat, Bytes>, root: nat, a: nat): Option<byte> {
    match Translate(t, root, a)
    case None => None
    case Some(phys) =>
      if phys / PAGE_SIZE in pages && phys % PAGE_SIZE < |pages[phys / PAGE_SIZE]|
      then Some(pages[phys / PAGE_SIZE][phys % PAGE_SIZE]) else None
  }

  /** Whether `v` lies in one of `n` pages from `start` on. */
  ghost predicate Covered(v: nat, start: nat, n: nat) { exists j: nat :: j < n && SamePage(v, start + PAGE_SIZE * j) }

  // ---- mapping the pages ----

  /** The pages from `start` on are mapped to `frames`, and nothing else has changed. */
  ghost predicate MappedTo(t: Tables, u: Tables, roots: set<nat>, root: nat, start: nat, frames: seq<nat>) {
    && (forall v: nat :: start <= v < start + PAGE_SIZE * |frames| ==>
          Translate(u, root, v) == Some(PAGE_SIZE * frames[(v - start) / PAGE_SIZE] + v % PAGE_SIZE))
    && Elsewhere(t, u, roots, root, start, |frames|)
    && TopKept(t, u, roots)
  }

  /** No address is translated otherwise than before, but for those in `n` pages from `start` on. */
  ghost predicate Elsewhere(t: Tables, u: Tables, roots: set<nat>, root: nat, start: nat, n: nat) {
    forall r: nat, v: nat :: r in roots && !(Covered(v, start, n) && Shares(t, r, root, Path(v)[0])) ==>
      Translate(u, r, v) == Translate(t, r, v)
  }

  lemma ElsewhereMore(t: Tables, u: Tables, w: Tables, roots: set<nat>, root: nat, start: nat, n: nat, n': nat)
    requires Elsewhere(t, u, roots, root, start, n) && n <= n'
    requires forall r: nat, v: nat :: r in roots ==> Translate(w, r, v) == Translate(u, r, v)
    ensures Elsewhere(t, w, roots, root, start, n')
  {
    forall v: nat | Covered(v, start, n) ensures Covered(v, start, n') {
      var j: nat :| j < n && SamePage(v, start + PAGE_SIZE * j);
    }
    hide Covered, Translate, Shares, Path;
  }

  lemma OtherPage(v: nat, start: nat, n: nat)
    requires start % PAGE_SIZE == 0 && start <= v < start + PAGE_SIZE * (n + 1) && n < 0x10_0000_0000
    ensures SamePage(v, start + PAGE_SIZE * n) <==> v >= start + PAGE_SIZE * n
    ensures v >= start + PAGE_SIZE * n ==> (v - start) / PAGE_SIZE == n
    ensures v < start + PAGE_SIZE * n ==> 0 <= (v - start) / PAGE_SIZE < n
  {
    var p, q := v / PAGE_SIZE, start / PAGE_SIZE + n;
    assert (start + PAGE_SIZE * n) / PAGE_SIZE == q;
    if p < q {
      assert q - 0x10_0000_0000 < p;
      Apart36(p, q);
    }
  }

  lemma Apart36(p: int, q: int)
    requires q - 0x10_0000_0000 < p < q
    ensures p % 0x10_0000_0000 != q % 0x10_0000_0000
  {
  }

  /** One more page. */
  lemma MapOne(t: Tables, u: Tables, w: Tables, roots: set<nat>, root: nat, start: nat, frames: seq<nat>, frame: nat)
    requires MappedTo(t, u, roots, root, start, frames) && root in roots
    requires start % PAGE_SIZE == 0 && |frames| < 0x10_0000_0000
    requires Remapped(u, w, roots, root, start + PAGE_SIZE * |frames|, Some(frame)) && TopKept(u, w, roots)
    ensures MappedTo(t, w, roots, root, start, frames + [frame])
  {
    var n := |frames|;
    var page := start + PAGE_SIZE * n;
    TopKeptTransitive(t, u, w, roots);
    forall v: nat | start <= v < page + PAGE_SIZE
      ensures Translate(w, root, v) == Some(PAGE_SIZE * (frames + [frame])[(v - start) / PAGE_SIZE] + v % PAGE_SIZE)
    {
      OtherPage(v, start, n);
      hide SamePage, Translate, Path, TopKept;
    }
    forall r: nat, v: nat | r in roots && !(Covered(v, start, n + 1) && Shares(t, r, root, Path(v)[0]))
      ensures Translate(w, r, v) == Translate(t, r, v)
    {
      if SamePage(v, page) {
        PathIsPage(v, page);
        assert Covered(v, start, n + 1);
        assert Shares(u, r, root, Path(page)[0]) == Shares(t, r, root, Path(page)[0]);
      }
      if Covered(v, start, n) {
        var j: nat :| j < n && SamePage(v, start + PAGE_SIZE * j);
        assert Covered(v, start, n + 1);
      }
      hide SamePage, Translate, Path, TopKept, Covered;
    }
  }

  // ---- the rights to them ----

  /** A loaded page is for the process to execute, and to write if the segment says so. */
  lemma PageFlagsPermit(flags: nat, right: Right)
    ensures Permits(PageFlags(flags), right) == (right != Writing || flags / 2 % 2 == 1)
  {
    TestedBits();
  }

  /**
   The `n` pages from `start` on may be used as the flags and the tables on the way permit, all others as before. The
   tables permit what they did.
   */
  ghost predicate Granted(t: Tables, u: Tables, root: nat, start: nat, n: nat, flags: nat) {
    && (forall v: nat, x: Right :: May(u, root, Path(v), x) == GrantedMay(t, root, start, n, flags, v, x))
    && forall q: seq<nat>, x: Right :: |q| == 4 ==> Allows(u, root, q, x) == Allows(t, root, q, x)
  }

  ghost predicate GrantedMay(t: Tables, root: nat, start: nat, n: nat, flags: nat, v: nat, right: Right) {
    if Covered(v, start, n) then Permits(flags, right) && Allows(t, root, Path(v), right)
    else May(t, root, Path(v), right)
  }

  lemma GrantNone(t: Tables, root: nat, start: nat, flags: nat)
    ensures Granted(t, t, root, start, 0, flags)
  {
    hide May, Allows, Permits, Path;
  }

  lemma CoveredMore(v: nat, start: nat, n: nat)
    ensures Covered(v, start, n + 1) <==> Covered(v, start, n) || SamePage(v, start + PAGE_SIZE * n)
  {
    hide SamePage;
    if Covered(v, start, n + 1) {
      var j: nat :| j < n + 1 && SamePage(v, start + PAGE_SIZE * j);
    }
    if Covered(v, start, n) {
      var j: nat :| j < n && SamePage(v, start + PAGE_SIZE * j);
      assert j < n + 1;
    }
  }

  lemma GrantOne(t: Tables, u: Tables, w: Tables, roots: set<nat>, root: nat, start: nat, n: nat, flags: nat)
    requires Granted(t, u, root, start, n, flags) && root in roots && Permits(flags, UserMode)
    requires Regranted(u, w, roots, root, start + PAGE_SIZE * n, Some(flags)) && SameAllows(u, w, roots, flags)
    ensures Granted(t, w, root, start, n + 1, flags)
  {
    hide May, Allows, Permits, Path, GrantedMay, MayAfter;
    forall v: nat, x: Right ensures May(w, root, Path(v), x) == GrantedMay(t, root, start, n + 1, flags, v, x) {
      GrantOneMay(t, u, root, start, n, flags, v, x);
    }
  }

  lemma GrantOneMay(t: Tables, u: Tables, root: nat, start: nat, n: nat, flags: nat, v: nat, x: Right)
    requires Granted(t, u, root, start, n, flags)
    ensures MayAfter(u, root, start + PAGE_SIZE * n, Some(flags), root, v, x)
            == GrantedMay(t, root, start, n + 1, flags, v, x)
  {
    hide May, Allows, Permits, Path, Covered, SamePage;
    CoveredMore(v, start, n);
  }

  // ---- filling them ----

  /** The byte at `a` in the frames that hold the pages from `start` on. */
  function PageByte(pages: map<nat, Bytes>, frames: seq<nat>, start: nat, a: nat): Option<byte>
    requires start <= a
  {
    var j := (a - start) / PAGE_SIZE;
    if j < |frames| && frames[j] in pages && |pages[frames[j]]| == PAGE_SIZE
    then Some(pages[frames[j]][a % PAGE_SIZE]) else None
  }

  /** Distinct frames of data, none of them in use before. */
  ghost predicate FreshFrames(before: map<nat, Bytes>, pages: map<nat, Bytes>, frames: seq<nat>) {
    && (forall j :: 0 <= j < |frames| ==> frames[j] in pages && frames[j] !in before)
    && (forall i, j :: 0 <= i < j < |frames| ==> frames[i] != frames[j])
    && (forall f :: f in before ==> f in pages && pages[f] == before[f])
  }

  /** The pages hold the first `copied` bytes of the segment and zeros everywhere else. */
  ghost predicate Filled(pages: map<nat, Bytes>, frames: seq<nat>, start: nat, data: Bytes, offset: nat, vaddr: nat,
      copied: nat) {
    && (copied > 0 ==> offset + copied <= |data|)
    && forall a: nat :: start <= a < start + PAGE_SIZE * |frames| ==>
         PageByte(pages, frames, start, a) == Some(Content(data, offset, vaddr, copied, a))
  }

  lemma FillNone(before: map<nat, Bytes>, pages: map<nat, Bytes>, frames: seq<nat>, start: nat, data: Bytes,
      offset: nat, vaddr: nat, frame: nat)
    requires FreshFrames(before, pages, frames) && frame !in pages
    requires Filled(pages, frames, start, data, offset, vaddr, 0)
    ensures var more := pages[frame := seq(PAGE_SIZE, _ => 0)];
            FreshFrames(before, more, frames + [frame]) && Filled(more, frames + [frame], start, data, offset, vaddr, 0)
  {
    var more := pages[frame := seq(PAGE_SIZE, _ => 0)];
    forall a: nat | start <= a < start + PAGE_SIZE * (|frames| + 1)
      ensures PageByte(more, frames + [frame], start, a) == Some(0)
    {
      assert a < start + PAGE_SIZE * |frames| ==> PageByte(pages, frames, start, a) == Some(0);
    }
  }

  /** Copying a chunk that stays within one page. */
  lemma FillChunk(before: map<nat, Bytes>, pages: map<nat, Bytes>, frames: seq<nat>, start: nat, data: Bytes,
      offset: nat, vaddr: nat, copied: nat, chunk: nat)
    requires FreshFrames(before, pages, frames) && Filled(pages, frames, start, data, offset, vaddr, copied)
    requires start % PAGE_SIZE == 0 && start <= vaddr && vaddr + copied + chunk <= start + PAGE_SIZE * |frames|
             && chunk > 0
    requires offset + copied + chunk <= |data| && (vaddr + copied) % PAGE_SIZE + chunk <= PAGE_SIZE
    ensures var va := vaddr + copied; var j := (va - start) / PAGE_SIZE;
            && j < |frames| && frames[j] in pages && |pages[frames[j]]| == PAGE_SIZE
            && var bytes := data[offset + copied..offset + copied + chunk];
               var more := pages[frames[j] := Spliced(pages[frames[j]], va % PAGE_SIZE, bytes)];
               FreshFrames(before, more, frames) && Filled(more, frames, start, data, offset, vaddr, copied + chunk)
  {
    var va := vaddr + copied;
    var j := (va - start) / PAGE_SIZE;
    assert j < |frames|;
    assert PageByte(pages, frames, start, va).Some?;
    var bytes := data[offset + copied..offset + copied + chunk];
    var more := pages[frames[j] := Spliced(pages[frames[j]], va % PAGE_SIZE, bytes)];
    forall a: nat | start <= a < start + PAGE_SIZE * |frames|
      ensures PageByte(more, frames, start, a) == Some(Content(data, offset, vaddr, copied + chunk, a))
    {
      FillByte(pages, frames, start, data, offset, vaddr, copied, chunk, a);
    }
  }

  lemma FillByte(pages: map<nat, Bytes>, frames: seq<nat>, start: nat, data: Bytes, offset: nat,
      vaddr: nat, copied: nat, chunk: nat, a: nat)
    requires forall i, j :: 0 <= i < j < |frames| ==> frames[i] != frames[j]
    requires Filled(pages, frames, start, data, offset, vaddr, copied)
    requires start % PAGE_SIZE == 0 && start <= vaddr && vaddr + copied + chunk <= start + PAGE_SIZE * |frames|
             && chunk > 0
    requires offset + copied + chunk <= |data| && (vaddr + copied) % PAGE_SIZE + chunk <= PAGE_SIZE
    requires start <= a < start + PAGE_SIZE * |frames|
    requires var j := (vaddr + copied - start) / PAGE_SIZE;
             j < |frames| && frames[j] in pages && |pages[frames[j]]| == PAGE_SIZE
    ensures var va := vaddr + copied; var j := (va - start) / PAGE_SIZE;
            var bytes := data[offset + copied..offset + copied + chunk];
            var more := pages[frames[j] := Spliced(pages[frames[j]], va % PAGE_SIZE, bytes)];
            PageByte(more, frames, start, a) == Some(Content(data, offset, vaddr, copied + chunk, a))
  {
    var va := vaddr + copied;
    var j, k := (va - start) / PAGE_SIZE, (a - start) / PAGE_SIZE;
    assert PageByte(pages, frames, start, a) == Some(Content(data, offset, vaddr, copied, a));
    SamePageOffsets(start, va, chunk, a);
    if k < j { assert frames[k] != frames[j]; } else if j < k { assert frames[j] != frames[k]; }
  }

  /** Which addresses a chunk within one page writes. */
  lemma SamePageOffsets(start: nat, va: nat, chunk: nat, a: nat)
    requires start % PAGE_SIZE == 0 && start <= va && start <= a && va % PAGE_SIZE + chunk <= PAGE_SIZE
    ensures va <= a < va + chunk
            <==> && (va - start) / PAGE_SIZE == (a - start) / PAGE_SIZE
                 && va % PAGE_SIZE <= a % PAGE_SIZE < va % PAGE_SIZE + chunk
    ensures va <= a < va + chunk ==> a % PAGE_SIZE - va % PAGE_SIZE == a - va
  {
    var s := start / PAGE_SIZE;
    assert va - start == PAGE_SIZE * (va / PAGE_SIZE - s) + va % PAGE_SIZE;
    assert a - start == PAGE_SIZE * (a / PAGE_SIZE - s) + a % PAGE_SIZE;
    DivUnique(va - start, PAGE_SIZE, va / PAGE_SIZE - s, va % PAGE_SIZE);
    DivUnique(a - start, PAGE_SIZE, a / PAGE_SIZE - s, a % PAGE_SIZE);
  }

  // ---- the loader ----

  lemma PageEntry(frame: nat, flags: nat)
    requires frame < 0x100_0000_0000
    ensures FrameOf(LeafEntry(frame * PAGE_SIZE, PageFlags(flags))) == frame
  {
    Fields(0, frame, 0);
    LeafFields(frame * PAGE_SIZE, PageFlags(flags));
  }

  lemma NothingMapped(t: Tables, roots: set<nat>, root: nat, start: nat, pages: map<nat, Bytes>, data: Bytes,
      offset: nat, vaddr: nat)
    ensures MappedTo(t, t, roots, root, start, []) && FreshFrames(pages, pages, [])
    ensures Filled(pages, [], start, data, offset, vaddr, 0)
  {
  }

  lemma MappedTop(t: Tables, u: Tables, roots: set<nat>, root: nat, start: nat, frames: seq<nat>)
    requires MappedTo(t, u, roots, root, start, frames)
    ensures TopKept(t, u, roots)
  {
  }

  lemma MappedElsewhere(t: Tables, u: Tables, w: Tables, roots: set<nat>, root: nat, start: nat, frames: seq<nat>)
    requires MappedTo(t, u, roots, root, start, frames)
    requires forall r: nat, v: nat :: r in roots ==> Translate(w, r, v) == Translate(u, r, v)
    ensures Elsewhere(t, w, roots, root, start, |frames|)
  {
    ElsewhereMore(t, u, w, roots, root, start, |frames|, |frames|);
  }

  /** Maps one more zeroed page after those that are mapped to `frames`. */
  method MapPage(m: Memory, root: nat, start: nat, page: nat, flags: nat, ghost t: Tables,
      ghost before: map<nat, Bytes>, ghost frames: seq<nat>, ghost data: Bytes, ghost offset: nat, ghost vaddr: nat)
    returns (r: Outcome, ghost more: seq<nat>)
    requires m.Valid() && root in m.Spaces()
    requires start % PAGE_SIZE == 0 && |frames| < 0x10_0000_0000 && page == start + PAGE_SIZE * |frames|
    requires MappedTo(t, m.tables, m.Spaces(), root, start, frames) && FreshFrames(before, m.pages, frames)
    requires Filled(m.pages, frames, start, data, offset, vaddr, 0)
    requires Granted(t, m.tables, root, start, |frames|, PageFlags(flags))
    modifies m`tables, m`level, m`pages, m.pmm, m.pmm.bitmap
    ensures m.Valid() && m.Spaces() == old(m.Spaces()) && (r == Loaded || r == OutOfMemory || r == NoTableMemory)
    ensures r == Loaded ==> Granted(t, m.tables, root, start, |more|, PageFlags(flags))
    ensures r == Loaded ==>
              && |more| == |frames| + 1 && MappedTo(t, m.tables, m.Spaces(), root, start, more)
              && Filled(m.pages, more, start, data, offset, vaddr, 0)
    ensures r != Loaded ==> m.pmm.free == {} && Elsewhere(t, m.tables, m.Spaces(), root, start, |frames|)
    ensures FreshFrames(before, m.pages, more) && TopKept(t, m.tables, m.Spaces())
  {
    hide *;
    MappedTop(t, m.tables, m.Spaces(), root, start, frames);
    more := frames;
    var frame := m.TakePage();
    if frame.None? {
      MappedElsewhere(t, m.tables, m.tables, m.Spaces(), root, start, frames);
      return OutOfMemory, more;
    }
    more := frames + [frame.value];
    FillNone(before, old(m.pages), frames, start, data, offset, vaddr, frame.value);
    var ok := m.MapIn(root, page, frame.value * PAGE_SIZE, PageFlags(flags));
    TopKeptTransitive(t, old(m.tables), m.tables, m.Spaces());
    if !ok {
      MappedElsewhere(t, old(m.tables), m.tables, m.Spaces(), root, start, frames);
      return NoTableMemory, more;
    }
    PageEntry(frame.value, flags);
    PageFlagsPermit(flags, UserMode);
    GrantOne(t, old(m.tables), m.tables, m.Spaces(), root, start, |frames|, PageFlags(flags));
    MapOne(t, old(m.tables), m.tables, m.Spaces(), root, start, frames, frame.value);
    return Loaded, more;
  }

  /** As long as the next page is below `end`, all of it is. */
  lemma RoomForOne(start: nat, end: nat, n: nat)
    requires start % PAGE_SIZE == 0 && end % PAGE_SIZE == 0 && end <= start + PAGE_SIZE * 0x10_0000_0000
    requires start + PAGE_SIZE * n < end
    ensures n < 0x10_0000_0000 && start + PAGE_SIZE * (n + 1) <= end && n <= (end - start) / PAGE_SIZE
    ensures start + PAGE_SIZE * n + PAGE_SIZE == start + PAGE_SIZE * (n + 1)
  {
  }

  lemma AllMapped(start: nat, end: nat, n: nat)
    requires end == start + PAGE_SIZE * n
    ensures (end - start) / PAGE_SIZE == n
  {
  }

  /** Maps zeroed pages from `start` to `end`. */
  method MapPages(m: Memory, root: nat, start: nat, end: nat, flags: nat,
      ghost data: Bytes, ghost offset: nat, ghost vaddr: nat) returns (r: Outcome, ghost frames: seq<nat>)
    requires m.Valid() && root in m.Spaces()
    requires start % PAGE_SIZE == 0 && end % PAGE_SIZE == 0 && start <= end <= start + PAGE_SIZE * 0x10_0000_0000
    modifies m`tables, m`level, m`pages, m.pmm, m.pmm.bitmap
    ensures m.Valid() && m.Spaces() == old(m.Spaces()) && (r == Loaded || r == OutOfMemory || r == NoTableMemory)
    ensures r == Loaded ==>
              && PAGE_SIZE * |frames| == end - start
              && Granted(old(m.tables), m.tables, root, start, (end - start) / PAGE_SIZE, PageFlags(flags))
              && MappedTo(old(m.tables), m.tables, m.Spaces(), root, start, frames)
              && Filled(m.pages, frames, start, data, offset, vaddr, 0)
    ensures r != Loaded ==> m.pmm.free == {}
    ensures Elsewhere(old(m.tables), m.tables, m.Spaces(), root, start, (end - start) / PAGE_SIZE)
    ensures FreshFrames(old(m.pages), m.pages, frames) && TopKept(old(m.tables), m.tables, m.Spaces())
  {
    frames := [];
    ghost var t, before := m.tables, m.pages;
    NothingMapped(m.tables, m.Spaces(), root, start, m.pages, data, offset, vaddr);
    GrantNone(m.tables, root, start, PageFlags(flags));
    assert PAGE_SIZE > 0;
    hide *;
    var page := start;
    while page < end
      invariant page == start + PAGE_SIZE * |frames| && page <= end
      invariant m.Valid() && m.Spaces() == old(m.Spaces())
      invariant MappedTo(t, m.tables, m.Spaces(), root, start, frames)
      invariant FreshFrames(before, m.pages, frames)
      invariant Filled(m.pages, frames, start, data, offset, vaddr, 0)
      invariant Granted(t, m.tables, root, start, |frames|, PageFlags(flags))
    {
      ghost var n := |frames|;
      RoomForOne(start, end, n);
      r, frames := MapPage(m, root, start, page, flags, t, before, frames, data, offset, vaddr);
      if r != Loaded {
        ElsewhereMore(t, m.tables, m.tables, m.Spaces(), root, start, n, (end - start) / PAGE_SIZE);
        return;
      }
      page := page + PAGE_SIZE;
    }
    MappedElsewhere(t, m.tables, m.tables, m.Spaces(), root, start, frames);
    MappedTop(t, m.tables, m.Spaces(), root, start, frames);
    AllMapped(start, end, |frames|);
    r := Loaded;
  }

  /** The next chunk to copy stays within the page of its first byte. */
  lemma ChunkPlace(t: Tables, u: Tables, roots: set<nat>, root: nat, start: nat, frames: seq<nat>, va: nat)
    requires MappedTo(t, u, roots, root, start, frames)
    requires start % PAGE_SIZE == 0 && start <= va < start + PAGE_SIZE * |frames|
    ensures PageBase(va) <= va < PageBase(va) + PAGE_SIZE && va - PageBase(va) == va % PAGE_SIZE
    ensures PageBase(va) + PAGE_SIZE <= start + PAGE_SIZE * |frames|
    ensures (va - start) / PAGE_SIZE < |frames|
    ensures Translate(u, root, PageBase(va)) == Some(PAGE_SIZE * frames[(va - start) / PAGE_SIZE])
  {
    var base := PageBase(va);
    assert base % PAGE_SIZE == 0 && start <= base;
    assert (base - start) / PAGE_SIZE == (va - start) / PAGE_SIZE;
    hide Translate, Elsewhere, TopKept;
    assert Translate(u, root, base) == Some(PAGE_SIZE * frames[(base - start) / PAGE_SIZE] + base % PAGE_SIZE);
  }

  /** The file bytes end within the pages up to `end`, or the page there is not mapped. */
  ghost predicate StopsAt(t: Tables, root: nat, end: nat, vaddr: nat, filesz: nat) {
    vaddr + filesz <= end || Translate(t, root, end) == None
  }

  lemma EndPage(start: nat, n: nat)
    requires start % PAGE_SIZE == 0
    ensures PageBase(start + PAGE_SIZE * n) == start + PAGE_SIZE * n
  {
  }

  /** The page after the last one is none of them. */
  lemma EndIsElsewhere(t: Tables, u: Tables, roots: set<nat>, root: nat, start: nat, n: nat)
    requires start % PAGE_SIZE == 0 && n < 0x10_0000_0000 && root in roots && Elsewhere(t, u, roots, root, start, n)
    ensures Translate(u, root, start + PAGE_SIZE * n) == Translate(t, root, start + PAGE_SIZE * n)
  {
    var end := start + PAGE_SIZE * n;
    if Covered(end, start, n) {
      var j: nat :| j < n && SamePage(end, start + PAGE_SIZE * j);
      assert (start + PAGE_SIZE * j) / PAGE_SIZE == start / PAGE_SIZE + j && end / PAGE_SIZE == start / PAGE_SIZE + n;
      Apart36(start / PAGE_SIZE + j, start / PAGE_SIZE + n);
    }
    hide Covered, Translate, Path;
  }

  lemma ChunkAddress(frame: nat, off: nat)
    requires off < PAGE_SIZE
    ensures (PAGE_SIZE * frame + off) / PAGE_SIZE == frame && (PAGE_SIZE * frame + off) % PAGE_SIZE == off
  {
  }

  /** Copies the file-backed bytes in, a page at a time, until it comes to a page that is not mapped. */
  method CopySegment(m: Memory, root: nat, data: Bytes, offset: nat, vaddr: nat, filesz: nat,
      ghost t: Tables, ghost before: map<nat, Bytes>, ghost start: nat, ghost frames: seq<nat>) returns (r: Outcome)
    requires m.Valid() && root in m.Spaces()
    requires MappedTo(t, m.tables, m.Spaces(), root, start, frames) && FreshFrames(before, m.pages, frames)
    requires Filled(m.pages, frames, start, data, offset, vaddr, 0)
    requires start % PAGE_SIZE == 0 && start <= vaddr <= start + PAGE_SIZE * |frames|
    requires StopsAt(m.tables, root, start + PAGE_SIZE * |frames|, vaddr, filesz)
    modifies m`pages
    ensures m.Valid() && FreshFrames(before, m.pages, frames) && (r == Loaded || r == OutOfBounds || r == PageVanished)
    ensures r == Loaded ==>
              vaddr + filesz <= start + PAGE_SIZE * |frames|
                && Filled(m.pages, frames, start, data, offset, vaddr, filesz)
    ensures r == PageVanished ==> vaddr + filesz > start + PAGE_SIZE * |frames|
    ensures r == OutOfBounds ==> offset + filesz > |data| && filesz > 0
  {
    hide Memory.Valid, MappedTo, FreshFrames, Filled, Translate, PageBase, Tree;
    ghost var end := start + PAGE_SIZE * |frames|;
    var copied := 0;
    while copied < filesz
      invariant 0 <= copied <= filesz && vaddr + copied <= end && m.Valid() && FreshFrames(before, m.pages, frames)
      invariant Filled(m.pages, frames, start, data, offset, vaddr, copied)
    {
      var va := vaddr + copied;
      if va == end {
        EndPage(start, |frames|);
      } else {
        ChunkPlace(t, m.tables, m.Spaces(), root, start, frames, va);
      }
      var pageBase := PageBase(va);
      var pageOff := va - pageBase;
      var chunk := if PAGE_SIZE - pageOff < filesz - copied then PAGE_SIZE - pageOff else filesz - copied;
      var phys := m.TranslateIn(root, pageBase);
      if phys.None? {
        return PageVanished;
      }
      if offset + copied + chunk > |data| {
        return OutOfBounds;
      }
      FillChunk(before, m.pages, frames, start, data, offset, vaddr, copied, chunk);
      ChunkAddress(frames[(va - start) / PAGE_SIZE], pageOff);
      m.CopyInto((phys.value + pageOff) / PAGE_SIZE, (phys.value + pageOff) % PAGE_SIZE,
        data[offset + copied..offset + copied + chunk]);
      copied := copied + chunk;
    }
    r := Loaded;
  }

  /** What the process reads once its pages are mapped and filled. */
  lemma ReadsBack(t: Tables, u: Tables, roots: set<nat>, root: nat, start: nat, frames: seq<nat>,
      pages: map<nat, Bytes>, data: Bytes, offset: nat, vaddr: nat, copied: nat, a: nat)
    requires MappedTo(t, u, roots, root, start, frames) && Filled(pages, frames, start, data, offset, vaddr, copied)
    requires start <= a < start + PAGE_SIZE * |frames|
    ensures ReadByte(u, pages, root, a) == Some(Content(data, offset, vaddr, copied, a))
  {
    assert (a - start) / PAGE_SIZE < |frames|;
    assert PageByte(pages, frames, start, a) == Some(Content(data, offset, vaddr, copied, a));
    ChunkAddress(frames[(a - start) / PAGE_SIZE], a % PAGE_SIZE);
    hide Translate, Elsewhere, TopKept, Content, Filled;
    assert Translate(u, root, a) == Some(PAGE_SIZE * frames[(a - start) / PAGE_SIZE] + a % PAGE_SIZE);
  }

  lemma SegmentPages(vaddr: nat, memsz: nat)
    requires memsz > 0
    ensures var start, n := PageBase(vaddr), PageCount(vaddr, memsz);
            var end := CeilDiv(vaddr + memsz, PAGE_SIZE) * PAGE_SIZE;
            && start % PAGE_SIZE == 0 && end % PAGE_SIZE == 0 && start <= vaddr && n > 0
            && vaddr + memsz <= end == start + PAGE_SIZE * n && (end - start) / PAGE_SIZE == n
  {
  }

  /**
   The file bytes end within the pages of the segment, or the page behind them is not mapped: `filesz <= memsz` is
   enough.
   */
  ghost predicate Contained(t: Tables, root: nat, vaddr: nat, filesz: nat, memsz: nat) {
    var n, end := PageCount(vaddr, memsz), PageBase(vaddr) + PAGE_SIZE * PageCount(vaddr, memsz);
    memsz == 0 || vaddr + filesz <= end || (n < 0x10_0000_0000 && Translate(t, root, end) == None)
  }

  lemma SmallerFits(t: Tables, root: nat, vaddr: nat, filesz: nat, memsz: nat)
    requires filesz <= memsz
    ensures Contained(t, root, vaddr, filesz, memsz)
  {
    if memsz > 0 { SegmentPages(vaddr, memsz); }
  }

  lemma ContainedStops(t: Tables, u: Tables, roots: set<nat>, root: nat, vaddr: nat, filesz: nat, memsz: nat)
    requires memsz > 0 && Contained(t, root, vaddr, filesz, memsz) && root in roots
    requires Elsewhere(t, u, roots, root, PageBase(vaddr), PageCount(vaddr, memsz))
    ensures StopsAt(u, root, PageBase(vaddr) + PAGE_SIZE * PageCount(vaddr, memsz), vaddr, filesz)
  {
    SegmentPages(vaddr, memsz);
    if PageCount(vaddr, memsz) < 0x10_0000_0000 {
      EndIsElsewhere(t, u, roots, root, PageBase(vaddr), PageCount(vaddr, memsz));
    }
    hide Elsewhere, Translate, PageBase, PageCount;
  }

  lemma NothingDone(t: Tables, roots: set<nat>, root: nat, start: nat, n: nat)
    ensures Elsewhere(t, t, roots, root, start, n) && TopKept(t, t, roots)
  {
  }

  lemma KeptPages(before: map<nat, Bytes>, pages: map<nat, Bytes>, frames: seq<nat>)
    requires FreshFrames(before, pages, frames)
    ensures forall f :: f in before ==> f in pages && pages[f] == before[f]
  {
  }

  lemma FilledFits(pages: map<nat, Bytes>, frames: seq<nat>, start: nat, data: Bytes, offset: nat, vaddr: nat,
      copied: nat)
    requires Filled(pages, frames, start, data, offset, vaddr, copied)
    ensures copied == 0 || offset + copied <= |data|
  {
  }

  /**
   `load_segment`. Once loaded, every address of the pages the segment touches reads as the file says, or as zero: the
   first `filesz` bytes from `vaddr` on are those of the file. These pages may be used as the flags and the tables on
   the way say, and all others as before. Whatever the outcome, no other address of any space is translated otherwise
   than before, and no frame that held data before is written. Loading fails only when memory has run out, the file is
   too short, or its bytes go on behind the last page.
   */
  method LoadSegment(m: Memory, root: nat, data: Bytes, offset: nat, vaddr: nat, filesz: nat, memsz: nat, flags: nat)
    returns (r: Outcome)
    requires m.Valid() && root in m.Spaces() && PageCount(vaddr, memsz) <= 0x10_0000_0000
    requires Contained(m.tables, root, vaddr, filesz, memsz)
    modifies m`tables, m`level, m`pages, m.pmm, m.pmm.bitmap
    ensures m.Valid() && m.Spaces() == old(m.Spaces())
    ensures r == Loaded && memsz > 0 ==>
              forall a: nat :: PageBase(vaddr) <= a < PageBase(vaddr) + PAGE_SIZE * PageCount(vaddr, memsz) ==>
                ReadByte(m.tables, m.pages, root, a) == Some(Content(data, offset, vaddr, filesz, a))
    ensures r == Loaded && memsz > 0 ==>
              Granted(old(m.tables), m.tables, root, PageBase(vaddr), PageCount(vaddr, memsz), PageFlags(flags))
    ensures r == Loaded && memsz > 0 ==> filesz == 0 || offset + filesz <= |data|
    ensures r == Loaded && memsz > 0 ==> vaddr + filesz <= PageBase(vaddr) + PAGE_SIZE * PageCount(vaddr, memsz)
    ensures memsz == 0 ==> r == Loaded && m.tables == old(m.tables) && m.pages == old(m.pages)
    ensures r == OutOfBounds ==> filesz > 0 && offset + filesz > |data|
    ensures r == PageVanished ==> vaddr + filesz > PageBase(vaddr) + PAGE_SIZE * PageCount(vaddr, memsz)
    ensures r == OutOfMemory || r == NoTableMemory ==> m.pmm.free == {}
    ensures Elsewhere(old(m.tables), m.tables, m.Spaces(), root, PageBase(vaddr), PageCount(vaddr, memsz))
    ensures TopKept(old(m.tables), m.tables, m.Spaces())
    ensures forall f :: f in old(m.pages) ==> f in m.pages && m.pages[f] == old(m.pages)[f]
  {
    hide *;
    if memsz == 0 {
      NothingDone(m.tables, m.Spaces(), root, PageBase(vaddr), PageCount(vaddr, memsz));
      return Loaded;
    }
    r := LoadPages(m, root, data, offset, vaddr, filesz, memsz, flags);
  }

  /** The same for a segment that has memory. */
  method LoadPages(m: Memory, root: nat, data: Bytes, offset: nat, vaddr: nat, filesz: nat, memsz: nat, flags: nat)
    returns (r: Outcome)
    requires m.Valid() && root in m.Spaces() && memsz > 0 && PageCount(vaddr, memsz) <= 0x10_0000_0000
    requires Contained(m.tables, root, vaddr, filesz, memsz)
    modifies m`tables, m`level, m`pages, m.pmm, m.pmm.bitmap
    ensures m.Valid() && m.Spaces() == old(m.Spaces())
    ensures r == Loaded ==>
              forall a: nat :: PageBase(vaddr) <= a < PageBase(vaddr) + PAGE_SIZE * PageCount(vaddr, memsz) ==>
                ReadByte(m.tables, m.pages, root, a) == Some(Content(data, offset, vaddr, filesz, a))
    ensures r == Loaded ==>
              Granted(old(m.tables), m.tables, root, PageBase(vaddr), PageCount(vaddr, memsz), PageFlags(flags))
    ensures r == Loaded ==> filesz == 0 || offset + filesz <= |data|
    ensures r == Loaded ==> vaddr + filesz <= PageBase(vaddr) + PAGE_SIZE * PageCount(vaddr, memsz)
    ensures r == OutOfBounds ==> filesz > 0 && offset + filesz > |data|
    ensures r == PageVanished ==> vaddr + filesz > PageBase(vaddr) + PAGE_SIZE * PageCount(vaddr, memsz)
    ensures r == OutOfMemory || r == NoTableMemory ==> m.pmm.free == {}
    ensures Elsewhere(old(m.tables), m.tables, m.Spaces(), root, PageBase(vaddr), PageCount(vaddr, memsz))
    ensures TopKept(old(m.tables), m.tables, m.Spaces())
    ensures forall f :: f in old(m.pages) ==> f in m.pages && m.pages[f] == old(m.pages)[f]
  {
    hide *;
    ghost var t, before := m.tables, m.pages;
    SegmentPages(vaddr, memsz);
    var start, end := PageBase(vaddr), CeilDiv(vaddr + memsz, PAGE_SIZE) * PAGE_SIZE;
    ghost var frames: seq<nat>;
    r, frames := MapPages(m, root, start, end, flags, data, offset, vaddr);
    KeptPages(before, m.pages, frames);
    if r != Loaded {
      return;
    }
    ContainedStops(t, m.tables, m.Spaces(), root, vaddr, filesz, memsz);
    r := CopySegment(m, root, data, offset, vaddr, filesz, t, before, start, frames);
    KeptPages(before, m.pages, frames);
    if r == Loaded {
      FilledFits(m.pages, frames, start, data, offset, vaddr, filesz);
      forall a: nat | start <= a < end {
        ReadsBack(t, m.tables, m.Spaces(), root, start, frames, m.pages, data, offset, vaddr, filesz, a);
      }
    }
  }
}
