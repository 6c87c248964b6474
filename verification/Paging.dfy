/** Mapping, unmapping and translating pages, and address spaces: kernel/src/memory/paging.rs, lines 69-216. */
module Paging {
  import opened Common
  import opened FrameAllocator
  import opened PageRights
  import opened PageTree

  /** No frame has two uses. */
  ghost predicate Apart(tables: set<nat>, pages: set<nat>, free: set<nat>) {
    tables !! free && pages !! free && tables !! pages
  }

  lemma UseAsTable(tables: set<nat>, pages: set<nat>, free: set<nat>, f: nat)
    requires Apart(tables, pages, free) && f !in pages && f !in free
    ensures Apart(tables + {f}, pages, free)
  {
  }

  lemma UseAsPage(tables: set<nat>, pages: map<nat, Bytes>, free: set<nat>, f: nat)
    requires Apart(tables, pages.Keys, free) && f !in tables && f !in free && WholePages(pages)
    ensures Apart(tables, pages[f := seq(PAGE_SIZE, _ => 0)].Keys, free)
            && WholePages(pages[f := seq(PAGE_SIZE, _ => 0)])
  {
  }

  /** `page` with `bytes` written at `at`. */
  function Spliced(page: Bytes, at: nat, bytes: Bytes): (r: Bytes)
    requires at + |bytes| <= |page|
    ensures |r| == |page|
    ensures forall o :: 0 <= o < |page| ==> r[o] == if at <= o < at + |bytes| then bytes[o - at] else page[o]
  {
    page[..at] + bytes + page[at + |bytes|..]
  }

  predicate WholePages(pages: map<nat, Bytes>) { forall f :: f in pages ==> |pages[f]| == PAGE_SIZE }

  /** Physical memory: the frames that hold page tables, the frames that hold data, and the allocator of free ones. */
  class Memory {
    const pmm: BitmapAllocator
    var tables: Tables
    var pages: map<nat, Bytes>
    var cr3: nat
    ghost var level: map<nat, nat>

    ghost predicate Valid()
      reads this, pmm, pmm.bitmap
    {
      && pmm.Valid() && pmm.frameCount <= 0x100_0000_0000
      && Tree(tables, level) && cr3 in Roots(level)
      && Apart(tables.Keys, pages.Keys, pmm.free) && WholePages(pages)
    }

    /** Memory as the bootloader leaves it: page tables that form a tree in frames the allocator never hands out. */
    constructor (pmm: BitmapAllocator, boot: Tables, cr3: nat, ghost level: map<nat, nat>)
      requires pmm.Valid() && pmm.frameCount <= 0x100_0000_0000 && Tree(boot, level) && cr3 in Roots(level)
      requires boot.Keys !! pmm.free
      ensures Valid() && this.pmm == pmm && tables == boot && pages == map[] && this.cr3 == cr3 && this.level == level
    {
      this.pmm, tables, pages, this.cr3, this.level := pmm, boot, map[], cr3, level;
    }

    ghost function Spaces(): set<nat>
      reads this`level
    {
      Roots(level)
    }

    /** The frame of `AllocFrame`, in frames. None is the panic for want of memory. */
    method AllocFrame() returns (r: Option<nat>)
      requires Valid()
      modifies pmm, pmm.bitmap
      ensures Valid()
      ensures r.None? <==> old(pmm.free) == {}
      ensures r.Some? ==> pmm.free == old(pmm.free) - {r.value} && r.value in old(pmm.free)
      ensures r.Some? ==> r.value < 0x100_0000_0000 && r.value !in tables && r.value !in pages
      ensures r.None? ==> pmm.free == old(pmm.free)
    {
      hide Tree, Partition, Range;
      var phys := pmm.Alloc();
      if phys.None? {
        return None;
      }
      return Some(phys.value / PAGE_SIZE);
    }

    /** Zeroes the frame `added` and makes the absent entry point to it. */
    method Attach(f: nat, i: nat, added: nat, flags: nat)
      requires pmm.Valid() && pmm.frameCount <= 0x100_0000_0000 && Tree(tables, level) && cr3 in Roots(level)
               && WholePages(pages)
      requires Apart(tables.Keys + {added}, pages.Keys, pmm.free)
      requires added !in tables && added < 0x100_0000_0000
      requires f in tables && level[f] > 1 && i < ENTRIES && Step(tables, f, i).None?
      modifies this`tables, this`level
      ensures Valid() && Extends(old(tables), old(level), tables, level)
      ensures OnlyEntry(old(tables), tables, old(level).Keys, f, i)
      ensures Entered(old(tables), tables, f, i, flags)
      ensures Step(tables, f, i) == Some(added) && added in tables && added in level && level[added] == level[f] - 1
    {
      hide *;
      ReadEntry(tables, level, f, i);
      TableFields(added, flags);
      var e := TableEntry(added, ExtraFlags(flags));
      GrowTree(tables, level, f, i, e, added);
      GrowExtends(tables, level, f, i, e, added);
      GrowEntered(tables, f, i, added, flags);
      tables := tables[added := Zero()];
      tables := Write(tables, f, i, e);
      level := level[added := level[f] - 1];
      ValidNow();
    }

    lemma ValidParts()
      requires Valid()
      ensures pmm.Valid() && pmm.frameCount <= 0x100_0000_0000 && Tree(tables, level) && cr3 in Roots(level)
              && WholePages(pages)
      ensures Apart(tables.Keys, pages.Keys, pmm.free) && Spaces() == Roots(level)
    {
    }

    lemma ValidNow()
      requires pmm.Valid() && pmm.frameCount <= 0x100_0000_0000 && Tree(tables, level) && cr3 in Roots(level)
               && WholePages(pages)
      requires Apart(tables.Keys, pages.Keys, pmm.free)
      ensures Valid()
    {
    }

    /** The table entry `i` of table `f` points to, allocated if need be. */
    method NextTable(f: nat, i: nat, flags: nat) returns (next: Option<nat>)
      requires Valid() && f in tables && level[f] > 1 && i < ENTRIES
      modifies this`tables, this`level, pmm, pmm.bitmap
      ensures Valid() && Extends(old(tables), old(level), tables, level) && pmm.free <= old(pmm.free)
      ensures OnlyEntry(old(tables), tables, old(level).Keys, f, i)
      ensures next.None? ==> pmm.free == {} && tables == old(tables)
      ensures next.Some? ==> Entered(old(tables), tables, f, i, flags)
      ensures SameMay(old(tables), tables, Roots(old(level)))
      ensures SameAllows(old(tables), tables, Roots(old(level)), flags)
      ensures next.Some? ==>
                && Step(tables, f, i) == next && next.value in tables
                && next.value in level && level[next.value] == level[f] - 1
    {
      ReadEntry(tables, level, f, i);
      ExtendsReflexive(tables, level);
      hide Tree, Extends, Step, FrameOf, Present, Apart, Roots, BitmapAllocator.Valid, SameMay, SameAllows, Added;
      SameReflexive(tables, Roots(level), flags);
      var entry := tables[f][i];
      if Present(entry) {
        return Some(FrameOf(entry));
      }
      var frame := AllocFrame();
      if frame.None? {
        return None;
      }
      UseAsTable(tables.Keys, pages.Keys, pmm.free, frame.value);
      Attach(f, i, frame.value, flags);
      EnterSame(old(tables), old(level), tables, f, i, flags);
      return frame;
    }

    /** Walks down to the last table on the way to `virt`, adding the tables that are missing. */
    method ReachLastTable(root: nat, virt: nat, flags: nat) returns (pt: Option<nat>)
      requires Valid() && root in Spaces()
      modifies this`tables, this`level, pmm, pmm.bitmap
      ensures Valid() && Extends(old(tables), old(level), tables, level) && pmm.free <= old(pmm.free)
      ensures OnlyEntry(old(tables), tables, old(Spaces()), root, Path(virt)[0])
      ensures pt.Some? ==> Step(tables, root, Path(virt)[0]).Some?
      ensures pt.None? ==> pmm.free == {}
      ensures pt.Some? && old(Step(tables, root, Path(virt)[0])).None? ==>
                Permits(At(tables, root, Path(virt)[0]), UserMode) == Permits(flags, UserMode)
      ensures SameMay(old(tables), tables, Roots(old(level)))
      ensures SameAllows(old(tables), tables, Roots(old(level)), flags)
      ensures pt.Some? ==> LastTable(tables, root, Path(virt)) == pt && pt.value in tables && level[pt.value] == 1
    {
      hide *;
      var p := Path(virt);
      ValidParts();
      RootTable(tables, level, root);
      LegalPath(virt);
      ghost var t0, l0 := tables, level;
      pt := NextTable(root, p[0], flags);
      ghost var t1, l1 := tables, level;
      ExtendsStep(t0, l0, t1, l1, root, p[0]);
      TopOnly(t0, l0, t1, root, p[0]);
      if pt.None? { return; }
      if Step(t0, root, p[0]).None? { EnteredFor(t0, t1, root, p[0], flags); }
      ghost var pdpt := pt.value;
      pt := NextTable(pt.value, p[1], flags);
      ghost var t2, l2 := tables, level;
      ExtendsTransitive(t0, l0, t1, l1, t2, l2);
      ExtendsStep(t1, l1, t2, l2, pdpt, p[1]);
      BelowTop(t0, l0, t1, l1, t2, root, p[0], pdpt, p[1]);
      SpacesKept(t0, l0, t1, l1, t2, l2);
      SameTransitive(t0, t1, t2, Roots(l0), flags);
      if pt.None? { return; }
      EnterKeeps(t1, t2, pdpt, p[1], flags, root, p[0]);
      ghost var pd := pt.value;
      pt := NextTable(pt.value, p[2], flags);
      ExtendsTransitive(t0, l0, t2, l2, tables, level);
      ExtendsStep(t2, l2, tables, level, pd, p[2]);
      BelowTop(t0, l0, t2, l2, tables, root, p[0], pd, p[2]);
      SpacesKept(t0, l0, t2, l2, tables, level);
      SameTransitive(t0, t2, tables, Roots(l0), flags);
      if pt.None? { return; }
      ExtendsStep(t0, l0, t2, l2, root, p[0]);
      EnterKeeps(t2, tables, pd, p[2], flags, root, p[0]);
      PathBuilt(t0, l0, t1, l1, t2, l2, tables, level, root, p, pdpt, pd, pt.value);
    }

    /**
     Maps one page: from then on it leads to the frame of `phys`, or-ed with whatever address bits the flags carry, in
     this space and in those that shared that part of the higher half with it already. No other page of any space has
     changed. Not `ok` is the panic for want of memory.
     */
    method MapIn(root: nat, virt: nat, phys: nat, flags: nat) returns (ok: bool)
      requires Valid() && root in Spaces()
      modifies this`tables, this`level, pmm, pmm.bitmap
      ensures Valid() && Spaces() == old(Spaces()) && pmm.free <= old(pmm.free)
      ensures !ok ==> pmm.free == {}
      ensures ok ==> Remapped(old(tables), tables, Spaces(), root, virt, Some(FrameOf(LeafEntry(phys, flags))))
      ensures !ok ==> forall r: nat, v: nat :: r in Spaces() ==> Translate(tables, r, v) == old(Translate(tables, r, v))
      ensures ok ==> Regranted(old(tables), tables, Spaces(), root, virt, Some(flags))
      ensures !ok ==> SameMay(old(tables), tables, Spaces())
      ensures ok && old(Step(tables, root, Path(virt)[0])).None? ==>
                Permits(At(tables, root, Path(virt)[0]), UserMode) == Permits(flags, UserMode)
      ensures SameAllows(old(tables), tables, Spaces(), flags)
      ensures TopKept(old(tables), tables, Spaces())
      ensures OnlyEntry(old(tables), tables, Spaces(), root, Path(virt)[0])
      ensures ok ==> Step(tables, root, Path(virt)[0]).Some?
    {
      ValidParts();
      hide Tree, Extends, Walk, Step, LastTable, Path, Roots, Shares, Translate, Remapped, LeafEntry, Valid, Present;
      hide FrameOf, TopSame, OnlyEntry, SameMay, SameAllows, Regranted;
      var pt := ReachLastTable(root, virt, flags);
      ExtendsSpaces(old(tables), old(level), tables, level);
      if pt.None? {
        return false;
      }
      LeafFields(phys, flags);
      ghost var built := tables;
      ghost var roots := Spaces();
      WriteLeaf(old(tables), old(level), root, virt, pt.value, LeafEntry(phys, flags));
      SameTop(old(tables), built, tables, Spaces(), root, Path(virt)[0]);
      MapRegrants(old(tables), built, tables, roots, root, virt, phys, flags);
      AllowsTransitive(old(tables), built, tables, roots, flags);
      return true;
    }

    /** The write to the last table. */
    method WriteLeaf(ghost t: Tables, ghost l: map<nat, nat>, ghost root: nat, virt: nat, pt: nat, e: nat)
      requires Valid() && Extends(t, l, tables, level) && Tree(t, l) && root in Roots(l)
      requires LastTable(tables, root, Path(virt)) == Some(pt) && pt in tables && level[pt] == 1
      modifies this`tables
      ensures Valid() && Remapped(t, tables, Roots(l), root, virt, Target(e))
      ensures TopKept(t, tables, Roots(l)) && TopSame(old(tables), tables, Roots(l))
      ensures Regranted(old(tables), tables, Roots(l), root, virt, if Present(e) then Some(e) else None)
      ensures forall flags :: SameAllows(old(tables), tables, Roots(l), flags)
      ensures At(tables, root, Path(virt)[0]) == old(At(tables, root, Path(virt)[0]))
    {
      var i := Path(virt)[3];
      assert i < ENTRIES;
      hide *;
      ValidParts();
      ReadEntry(tables, level, pt, i);
      LeafRemaps(t, l, tables, level, root, virt, pt, e);
      ExtendsSpaces(t, l, tables, level);
      LeafShares(tables, level, pt, i, e);
      LeafRegrants(tables, level, root, virt, pt, e);
      WriteAt(tables, pt, i, e, root, Path(virt)[0]);
      RootTable(t, l, root);
      ExtendsStep(t, l, tables, level, root, Path(virt)[0]);
      TopKeptTransitive(t, tables, Write(tables, pt, i, e), Roots(l));
      SetLeaf(tables, level, pt, i, e);
      tables := Write(tables, pt, i, e);
      ValidNow();
    }

    /**
     Removes one page, in this space and in those that share that part of the higher half with it, and nothing else.
     */
    method UnmapIn(root: nat, virt: nat)
      requires Valid() && root in Spaces()
      modifies this`tables
      ensures Valid() && Remapped(old(tables), tables, Spaces(), root, virt, None)
      ensures TopKept(old(tables), tables, Spaces()) && TopSame(old(tables), tables, Spaces())
      ensures Regranted(old(tables), tables, Spaces(), root, virt, None)
    {
      RootTable(tables, level, root);
      AlreadyUnmapped(tables, Spaces(), root, virt);
      if Walk(tables, root, Path(virt)).None? { AlreadyForbidden(tables, level, root, virt); }
      ExtendsReflexive(tables, level);
      hide Tree, Extends, Step, Walk, LastTable, Path, FrameOf, Present, Roots, Apart, Remapped, TopKept, TopSame,
        Regranted;
      hide BitmapAllocator.Valid;
      var p := Path(virt);
      FourHops(tables, root, p);
      ReadEntry(tables, level, root, p[0]);
      var pml4e := tables[root][p[0]];
      if !Present(pml4e) {
        return;
      }
      var pdpt := FrameOf(pml4e);
      ReadEntry(tables, level, pdpt, p[1]);
      var pdpte := tables[pdpt][p[1]];
      if !Present(pdpte) {
        return;
      }
      var pd := FrameOf(pdpte);
      ReadEntry(tables, level, pd, p[2]);
      var pde := tables[pd][p[2]];
      if !Present(pde) {
        return;
      }
      var pt := FrameOf(pde);
      ZeroIsAbsent();
      WriteLeaf(tables, level, root, virt, pt, 0);
    }

    /** The walk of the four levels is `Translate`. */
    method TranslateIn(root: nat, virt: nat) returns (phys: Option<nat>)
      requires Valid() && root in Spaces()
      ensures phys == Translate(tables, root, virt)
    {
      RootTable(tables, level, root);
      hide Tree, Step, Walk, LastTable, Path, FrameOf, Present, Roots, Apart, BitmapAllocator.Valid;
      var p := Path(virt);
      FourHops(tables, root, p);
      ReadEntry(tables, level, root, p[0]);
      var pml4e := tables[root][p[0]];
      if !Present(pml4e) { return None; }
      var pdpt := FrameOf(pml4e);
      ReadEntry(tables, level, pdpt, p[1]);
      var pdpte := tables[pdpt][p[1]];
      if !Present(pdpte) { return None; }
      var pd := FrameOf(pdpte);
      ReadEntry(tables, level, pd, p[2]);
      var pde := tables[pd][p[2]];
      if !Present(pde) { return None; }
      var pt := FrameOf(pde);
      ReadEntry(tables, level, pt, p[3]);
      var pte := tables[pt][p[3]];
      if !Present(pte) { return None; }
      return Some(0x1000 * FrameOf(pte) + virt % 0x1000);
    }

    /** A frame of zeros for data. */
    method TakePage() returns (r: Option<nat>)
      requires Valid()
      modifies this`pages, pmm, pmm.bitmap
      ensures Valid() && pmm.free <= old(pmm.free)
      ensures r.None? ==> pmm.free == {} && pages == old(pages)
      ensures r.Some? ==>
                && r.value !in old(pages) && r.value < 0x100_0000_0000
                && pages == old(pages)[r.value := seq(PAGE_SIZE, _ => 0)]
    {
      hide *;
      r := AllocFrame();
      if r.None? {
        return;
      }
      ValidParts();
      UseAsPage(tables.Keys, pages, pmm.free, r.value);
      pages := pages[r.value := seq(PAGE_SIZE, _ => 0)];
      ValidNow();
    }

    /** Copies bytes into a data frame. */
    method CopyInto(frame: nat, at: nat, bytes: Bytes)
      requires Valid() && frame in pages && at + |bytes| <= |pages[frame]|
      modifies this`pages
      ensures Valid() && pages == old(pages)[frame := Spliced(old(pages)[frame], at, bytes)]
    {
      hide Tree, Apart, BitmapAllocator.Valid;
      pages := pages[frame := Spliced(pages[frame], at, bytes)];
      assert pages.Keys == old(pages).Keys;
    }

    /** Makes another space the active one. */
    method SwitchTo(root: nat)
      requires Valid() && root in Spaces()
      modifies this`cr3
      ensures Valid() && cr3 == root
    {
      hide Tree, Apart;
      if cr3 != root {
        cr3 := root;
      }
    }

    /**
     A new space: its lower half is empty, its higher half is that of the active space, and shares the tables that are
     there by now. None is the panic for want of memory.
     */
    method NewSpace() returns (root: Option<nat>)
      requires Valid()
      modifies this`tables, this`level, pmm, pmm.bitmap
      ensures Valid() && pmm.free <= old(pmm.free)
      ensures root.None? ==> pmm.free == {} && tables == old(tables) && level == old(level)
      ensures root.Some? ==> Forked(old(tables), old(level), cr3, tables, level, root.value)
      ensures root.Some? ==> ForkedRights(old(tables), old(level), cr3, tables, root.value)
    {
      hide *;
      root := AllocFrame();
      if root.None? {
        return;
      }
      var pml4 := root.value;
      ValidParts();
      UseAsTable(tables.Keys, pages.Keys, pmm.free, pml4);
      FillRoot(pml4);
    }

    /** Zeroes the frame `pml4` and makes it a PML4 with the higher half of the active space. */
    method FillRoot(pml4: nat)
      requires pmm.Valid() && pmm.frameCount <= 0x100_0000_0000 && Tree(tables, level) && cr3 in Roots(level)
               && WholePages(pages)
      requires Apart(tables.Keys + {pml4}, pages.Keys, pmm.free)
      requires pml4 !in tables && pml4 < 0x100_0000_0000
      modifies this`tables, this`level
      ensures Valid() && Forked(old(tables), old(level), cr3, tables, level, pml4)
      ensures ForkedRights(old(tables), old(level), cr3, tables, pml4)
    {
      hide *;
      ghost var t, l := tables, level;
      StartCopy(tables, level, cr3, pml4);
      tables := tables[pml4 := Zero()];
      level := level[pml4 := 4];
      CopyHigherHalf(t, l, pml4);
      CopyForks(t, l, cr3, tables, level, pml4);
      CopyRights(t, l, cr3, tables, level, pml4);
      CopiedParts(t, l, cr3, tables, level, pml4, ENTRIES);
      ValidNow();
    }

    /** Copies the higher half of the active space, entry by entry. */
    method CopyHigherHalf(ghost t: Tables, ghost l: map<nat, nat>, pml4: nat)
      requires Copied(t, l, cr3, tables, level, pml4, HIGHER_HALF_START) && tables.Keys == t.Keys + {pml4}
      modifies this`tables
      ensures Copied(t, l, cr3, tables, level, pml4, ENTRIES) && tables.Keys == t.Keys + {pml4}
    {
      hide Copied, Tree, Write, At;
      for i := HIGHER_HALF_START to ENTRIES
        invariant Copied(t, l, cr3, tables, level, pml4, i) && tables.Keys == t.Keys + {pml4}
      {
        CopiedTables(t, l, cr3, tables, level, pml4, i);
        CopyOne(t, l, cr3, tables, level, pml4, i);
        var entry := tables[cr3][i];
        tables := Write(tables, pml4, i, entry);
      }
    }
  }

  /**
   The comment on `next_table` says that the mapping's own flags are what restricts access. They are not alone: once the
   kernel has mapped a page for itself in an empty part of the space, a page mapped there for processes is not for them.
   */
  method KernelMappingHides(m: Memory, root: nat, kernelPage: nat, userPage: nat, phys: nat, phys': nat)
    returns (ok: bool)
    requires m.Valid() && root in m.Spaces()
    requires Path(kernelPage)[0] == Path(userPage)[0] && Step(m.tables, root, Path(userPage)[0]).None?
    modifies m`tables, m`level, m.pmm, m.pmm.bitmap
    ensures if ok then !May(m.tables, root, Path(userPage), UserMode) else m.pmm.free == {}
  {
    hide Memory.Valid, Path, May, Allows, Bit, Step, At, Shares;
    SmallFlags();
    ok := m.MapIn(root, kernelPage, phys, FLAG_PRESENT + FLAG_WRITABLE);
    if ok {
      Barred(m.tables, root, Path(userPage));
      ghost var t := m.tables;
      ok := m.MapIn(root, userPage, phys', FLAG_PRESENT + FLAG_WRITABLE + FLAG_USER);
      if ok { OwnPage(t, root, userPage); }
    }
  }

  lemma SmallFlags()
    ensures !Permits(FLAG_PRESENT + FLAG_WRITABLE, UserMode)
    ensures Permits(FLAG_PRESENT + FLAG_WRITABLE + FLAG_USER, UserMode)
  {
    TestedBits();
  }

  lemma OwnPage(t: Tables, root: nat, virt: nat)
    ensures SamePage(virt, virt) && Shares(t, root, root, Path(virt)[0])
  {
  }
}
