/** Loading all segments of an executable one after the other: the loop of `load` in kernel/src/elf.rs, lines 63-83. */
module ElfSegments {
  import opened Common
  import opened FrameAllocator
  import opened PageRights
  import opened PageTree
  import opened Paging
  import opened Elf

  /** What a program header says of a segment to load. */
  datatype Segment = Segment(offset: nat, vaddr: nat, filesz: nat, memsz: nat, flags: nat) {
    function Start(): nat { PageBase(vaddr) }

    /** A segment without memory gets no pages, wherever it starts. */
    function Pages(): nat { if memsz == 0 then 0 else PageCount(vaddr, memsz) }

    /** Its file bytes stay within its pages. */
    predicate Fits() {
      PageCount(vaddr, memsz) <= 0x10_0000_0000 && (memsz == 0 || vaddr + filesz <= Start() + PAGE_SIZE * Pages())
    }
  }

  /** Addresses are walked modulo 2^48: where `a` falls when counted from the segment's first page. */
  function Home(seg: Segment, a: nat): (h: nat)
    ensures h >= seg.Start()
  {
    seg.Start() + (a - seg.Start()) % 0x1_0000_0000_0000
  }

  /** Whether `a` lies in one of the segment's pages. */
  predicate Touches(seg: Segment, a: nat) { Home(seg, a) < seg.Start() + PAGE_SIZE * seg.Pages() }

  /** What the segment alone would put at `a`. */
  function ByteOf(seg: Segment, data: Bytes, a: nat): byte {
    Content(data, seg.offset, seg.vaddr, seg.filesz, Home(seg, a))
  }

  /** What the segments put there together: every page belongs to the last segment that touches it. */
  function Image(segs: seq<Segment>, data: Bytes, a: nat): Option<byte> {
    if segs == [] then None
    else
      var last := segs[|segs| - 1];
      if Touches(last, a) then Some(ByteOf(last, data, a)) else Image(segs[..|segs| - 1], data, a)
  }

  /** The flags of the last segment that touches the page. */
  function FlagsAt(segs: seq<Segment>, a: nat): Option<nat> {
    if segs == [] then None
    else
      var last := segs[|segs| - 1];
      if Touches(last, a) then Some(last.flags) else FlagsAt(segs[..|segs| - 1], a)
  }

  // ---- pages and addresses ----

  lemma HomeAddress(seg: Segment, a: nat)
    ensures SamePage(a, Home(seg, a)) && a % PAGE_SIZE == Home(seg, a) % PAGE_SIZE
    ensures (Home(seg, a) - seg.Start()) / PAGE_SIZE == (a / PAGE_SIZE - seg.Start() / PAGE_SIZE) % 0x10_0000_0000
  {
    var s := seg.vaddr / PAGE_SIZE;
    var d := a - seg.Start();
    var q, r := d / 0x1_0000_0000_0000, d % 0x1_0000_0000_0000;
    assert seg.Start() == PAGE_SIZE * s && d == 0x1_0000_0000_0000 * q + r;
    var h := Home(seg, a);
    assert a == h + PAGE_SIZE * (0x10_0000_0000 * q);
    DivUnique(a, PAGE_SIZE, h / PAGE_SIZE + 0x10_0000_0000 * q, h % PAGE_SIZE);
    PagesApart(h / PAGE_SIZE, q);
    DivUnique(h - PAGE_SIZE * s, PAGE_SIZE, h / PAGE_SIZE - s, h % PAGE_SIZE);
    WithinTable(a / PAGE_SIZE - s, q, h / PAGE_SIZE - s);
  }

  lemma PagesApart(p: nat, q: int)
    ensures (p + 0x10_0000_0000 * q) % 0x10_0000_0000 == p % 0x10_0000_0000
  {
    DivUnique(p + 0x10_0000_0000 * q, 0x10_0000_0000, p / 0x10_0000_0000 + q, p % 0x10_0000_0000);
  }

  lemma WithinTable(x: int, q: int, r: int)
    requires x == r + 0x10_0000_0000 * q && 0 <= r < 0x10_0000_0000
    ensures x % 0x10_0000_0000 == r
  {
    DivUnique(x, 0x10_0000_0000, q, r);
  }

  lemma SameFromStart(p: int, s: int, j: int)
    requires p % 0x10_0000_0000 == (s + j) % 0x10_0000_0000 && 0 <= j < 0x10_0000_0000
    ensures (p - s) % 0x10_0000_0000 == j
  {
    var q := p / 0x10_0000_0000 - (s + j) / 0x10_0000_0000;
    assert p - s == j + 0x10_0000_0000 * q;
    WithinTable(p - s, q, j);
  }

  lemma TouchesIsCovered(seg: Segment, a: nat)
    requires seg.Pages() <= 0x10_0000_0000
    ensures Touches(seg, a) <==> Covered(a, seg.Start(), seg.Pages())
  {
    HomeAddress(seg, a);
    var s, n := seg.vaddr / PAGE_SIZE, seg.Pages();
    var j := (Home(seg, a) - seg.Start()) / PAGE_SIZE;
    assert forall i: nat :: (seg.Start() + PAGE_SIZE * i) / PAGE_SIZE == s + i;
    if Touches(seg, a) {
      assert j < n && Home(seg, a) / PAGE_SIZE == s + j;
      assert SamePage(a, seg.Start() + PAGE_SIZE * j);
    }
    if Covered(a, seg.Start(), n) {
      var i: nat :| i < n && SamePage(a, seg.Start() + PAGE_SIZE * i);
      SameFromStart(a / PAGE_SIZE, s, i);
    }
  }

  lemma ReadAtHome(t: Tables, pages: map<nat, Bytes>, root: nat, seg: Segment, a: nat)
    ensures ReadByte(t, pages, root, a) == ReadByte(t, pages, root, Home(seg, a))
  {
    HomeAddress(seg, a);
    PathIsPage(a, Home(seg, a));
    hide Path, Walk, Home, SamePage;
  }

  // ---- one segment more ----

  /** The process reads what the segments put into their pages. */
  ghost predicate Shows(t: Tables, pages: map<nat, Bytes>, root: nat, segs: seq<Segment>, data: Bytes) {
    forall a: nat :: Image(segs, data, a).Some? ==> ReadByte(t, pages, root, a) == Image(segs, data, a)
  }

  ghost predicate TouchedBy(segs: seq<Segment>, a: nat) { exists i :: 0 <= i < |segs| && Touches(segs[i], a) }

  /** Nothing but the pages of the segments is translated otherwise. */
  ghost predicate Untouched(t: Tables, u: Tables, roots: set<nat>, root: nat, segs: seq<Segment>) {
    forall r: nat, v: nat :: r in roots && !(TouchedBy(segs, v) && Shares(t, r, root, Path(v)[0])) ==>
      Translate(u, r, v) == Translate(t, r, v)
  }

  ghost predicate PagesKept(before: map<nat, Bytes>, pages: map<nat, Bytes>) {
    forall f :: f in before ==> f in pages && pages[f] == before[f]
  }

  /** A byte that could be read is still there if its page is translated as before. */
  lemma StillRead(t: Tables, pages: map<nat, Bytes>, u: Tables, more: map<nat, Bytes>, root: nat, a: nat)
    requires PagesKept(pages, more) && Translate(u, root, a) == Translate(t, root, a)
             && ReadByte(t, pages, root, a).Some?
    ensures ReadByte(u, more, root, a) == ReadByte(t, pages, root, a)
  {
    hide Translate;
  }

  lemma ShowsOne(t: Tables, pages: map<nat, Bytes>, u: Tables, more: map<nat, Bytes>, roots: set<nat>, root: nat,
      segs: seq<Segment>, seg: Segment, data: Bytes)
    requires Shows(t, pages, root, segs, data) && PagesKept(pages, more) && root in roots
    requires seg.Pages() <= 0x10_0000_0000 && Elsewhere(t, u, roots, root, seg.Start(), seg.Pages())
    requires forall a: nat :: seg.Start() <= a < seg.Start() + PAGE_SIZE * seg.Pages() ==>
               ReadByte(u, more, root, a) == Some(Content(data, seg.offset, seg.vaddr, seg.filesz, a))
    ensures Shows(u, more, root, segs + [seg], data)
  {
    hide Translate, Content, Home, ReadByte, Path, Covered, PagesKept, PageBase, PageCount, Segment.Start;
    hide Segment.Pages;
    assert (segs + [seg])[..|segs|] == segs;
    forall a: nat | Image(segs + [seg], data, a).Some?
      ensures ReadByte(u, more, root, a) == Image(segs + [seg], data, a)
    {
      TouchesIsCovered(seg, a);
      if Touches(seg, a) {
        ReadAtHome(u, more, root, seg, a);
      } else {
        StillRead(t, pages, u, more, root, a);
      }
    }
  }

  lemma UntouchedOne(t: Tables, u: Tables, w: Tables, roots: set<nat>, root: nat, segs: seq<Segment>, seg: Segment)
    requires Untouched(t, u, roots, root, segs) && TopKept(t, u, roots) && root in roots
    requires seg.Pages() <= 0x10_0000_0000 && Elsewhere(u, w, roots, root, seg.Start(), seg.Pages())
    ensures Untouched(t, w, roots, root, segs + [seg])
  {
    hide Translate, Touches, Covered, Path, Segment.Start, Segment.Pages, Shares;
    forall r: nat, v: nat | r in roots && !(TouchedBy(segs + [seg], v) && Shares(t, r, root, Path(v)[0]))
      ensures Translate(w, r, v) == Translate(t, r, v)
    {
      TouchesIsCovered(seg, v);
      TouchedMore(segs, seg, v);
    }
  }

  lemma TouchedMore(segs: seq<Segment>, seg: Segment, v: nat)
    ensures TouchedBy(segs + [seg], v) <==> TouchedBy(segs, v) || Touches(seg, v)
  {
    hide Touches;
    if TouchedBy(segs, v) {
      var i :| 0 <= i < |segs| && Touches(segs[i], v);
      assert (segs + [seg])[i] == segs[i];
    }
    if Touches(seg, v) {
      assert (segs + [seg])[|segs|] == seg;
    }
  }

  /**
   The process may read and execute every page of the segments, and write it if the last segment there says so, as far
   as the tables on the way let it; all other pages as before.
   */
  ghost predicate Rights(t: Tables, u: Tables, root: nat, segs: seq<Segment>) {
    && (forall v: nat, x: Right :: May(u, root, Path(v), x) == RightAt(t, root, segs, v, x))
    && forall q: seq<nat>, x: Right :: |q| == 4 ==> Allows(u, root, q, x) == Allows(t, root, q, x)
  }

  ghost predicate RightAt(t: Tables, root: nat, segs: seq<Segment>, v: nat, right: Right) {
    var flags := FlagsAt(segs, v);
    if flags.None? then May(t, root, Path(v), right)
    else (right != Writing || flags.value / 2 % 2 == 1) && Allows(t, root, Path(v), right)
  }

  lemma RightsOne(t: Tables, u: Tables, w: Tables, root: nat, segs: seq<Segment>, seg: Segment)
    requires Rights(t, u, root, segs) && seg.Pages() <= 0x10_0000_0000
    requires if seg.memsz == 0 then w == u
             else Granted(u, w, root, PageBase(seg.vaddr), PageCount(seg.vaddr, seg.memsz), PageFlags(seg.flags))
    ensures Rights(t, w, root, segs + [seg])
  {
    hide May, Allows, Path, RightAt, GrantedMay, Touches, Segment.Start, Segment.Pages, PageBase, PageCount;
    forall v: nat, x: Right ensures May(w, root, Path(v), x) == RightAt(t, root, segs + [seg], v, x) {
      RightOne(t, u, w, root, segs, seg, v, x);
    }
  }

  lemma RightOne(t: Tables, u: Tables, w: Tables, root: nat, segs: seq<Segment>, seg: Segment, v: nat, x: Right)
    requires Rights(t, u, root, segs) && seg.Pages() <= 0x10_0000_0000
    requires if seg.memsz == 0 then w == u
             else Granted(u, w, root, PageBase(seg.vaddr), PageCount(seg.vaddr, seg.memsz), PageFlags(seg.flags))
    ensures May(w, root, Path(v), x) == RightAt(t, root, segs + [seg], v, x)
  {
    hide May, Allows, Path, Touches, Covered, PageBase, PageCount, Permits, PageFlags;
    assert (segs + [seg])[..|segs|] == segs;
    PageFlagsPermit(seg.flags, x);
    if seg.memsz == 0 {
      NoPages(seg, v);
    } else {
      TouchesIsCovered(seg, v);
    }
  }

  /** In the lower half of a new space nothing is in the way: the process has exactly the rights of its segments. */
  lemma FreshProcess(t: Tables, level: map<nat, nat>, src: nat, u: Tables, root: nat, w: Tables, segs: seq<Segment>,
      v: nat, right: Right)
    requires ForkedRights(t, level, src, u, root) && Rights(u, w, root, segs) && Path(v)[0] < HIGHER_HALF_START
    ensures May(w, root, Path(v), right) <==>
            FlagsAt(segs, v).Some? && (right == Writing ==> FlagsAt(segs, v).value / 2 % 2 == 1)
  {
    hide May, Allows, Path, FlagsAt;
  }

  lemma NoPages(seg: Segment, v: nat)
    requires seg.memsz == 0
    ensures !Touches(seg, v)
  {
  }

  lemma SameElsewhere(t: Tables, u: Tables, roots: set<nat>, root: nat, seg: Segment)
    requires if seg.memsz == 0 then u == t
             else Elsewhere(t, u, roots, root, PageBase(seg.vaddr), PageCount(seg.vaddr, seg.memsz))
    ensures Elsewhere(t, u, roots, root, seg.Start(), seg.Pages())
  {
    hide Translate, Covered, Path;
  }

  lemma FitsIsContained(t: Tables, root: nat, seg: Segment)
    requires seg.Fits()
    ensures Contained(t, root, seg.vaddr, seg.filesz, seg.memsz) && seg.Pages() <= 0x10_0000_0000
    ensures PageCount(seg.vaddr, seg.memsz) <= 0x10_0000_0000
    ensures seg.memsz > 0 ==>
            seg.vaddr + seg.filesz <= PageBase(seg.vaddr) + PAGE_SIZE * PageCount(seg.vaddr, seg.memsz)
    ensures seg.Start() == PageBase(seg.vaddr)
    ensures seg.Pages() == if seg.memsz == 0 then 0 else PageCount(seg.vaddr, seg.memsz)
  {
    hide Translate;
  }

  lemma NoneYet(t: Tables, pages: map<nat, Bytes>, roots: set<nat>, root: nat, data: Bytes)
    ensures Shows(t, pages, root, [], data) && Untouched(t, t, roots, root, []) && TopKept(t, t, roots)
            && PagesKept(pages, pages)
  {
  }

  lemma NoRightsYet(t: Tables, root: nat)
    ensures Rights(t, t, root, [])
  {
    hide May, Allows, Path;
  }

  lemma StillKept(a: map<nat, Bytes>, b: map<nat, Bytes>, c: map<nat, Bytes>)
    requires PagesKept(a, b) && forall f :: f in b ==> f in c && c[f] == b[f]
    ensures PagesKept(a, c) && PagesKept(b, c)
  {
  }

  /**
   Loads the segments in order and stops at the first error. Then the process reads exactly what `Image` says in all the
   pages of the segments, and whatever the outcome, nothing else is translated otherwise and no earlier data written.
   */
  method LoadSegments(m: Memory, root: nat, data: Bytes, segs: seq<Segment>) returns (r: Outcome)
    requires m.Valid() && root in m.Spaces() && forall i :: 0 <= i < |segs| ==> segs[i].Fits()
    modifies m`tables, m`level, m`pages, m.pmm, m.pmm.bitmap
    ensures m.Valid() && m.Spaces() == old(m.Spaces()) && r != PageVanished
    ensures r == Loaded ==> Shows(m.tables, m.pages, root, segs, data)
    ensures r == Loaded ==> Rights(old(m.tables), m.tables, root, segs)
    ensures r == OutOfMemory || r == NoTableMemory ==> m.pmm.free == {}
    ensures r == OutOfBounds ==>
            exists i :: 0 <= i < |segs| && segs[i].filesz > 0 && segs[i].offset + segs[i].filesz > |data|
    ensures exists n :: 0 <= n <= |segs| && Untouched(old(m.tables), m.tables, m.Spaces(), root, segs[..n])
                        && (r == Loaded ==> n == |segs|)
    ensures TopKept(old(m.tables), m.tables, m.Spaces()) && PagesKept(old(m.pages), m.pages)
  {
    hide *;
    NoneYet(m.tables, m.pages, m.Spaces(), root, data);
    NoRightsYet(m.tables, root);
    ghost var t, before := m.tables, m.pages;
    var i := 0;
    assert segs[..0] == [];
    while i < |segs|
      invariant 0 <= i <= |segs| && m.Valid() && m.Spaces() == old(m.Spaces())
      invariant Shows(m.tables, m.pages, root, segs[..i], data)
      invariant Untouched(t, m.tables, m.Spaces(), root, segs[..i])
      invariant TopKept(t, m.tables, m.Spaces()) && PagesKept(before, m.pages)
      invariant Rights(t, m.tables, root, segs[..i])
    {
      var seg := segs[i];
      ghost var u, pages := m.tables, m.pages;
      FitsIsContained(u, root, seg);
      r := LoadSegment(m, root, data, seg.offset, seg.vaddr, seg.filesz, seg.memsz, seg.flags);
      StillKept(before, pages, m.pages);
      SameElsewhere(u, m.tables, m.Spaces(), root, seg);
      UntouchedOne(t, u, m.tables, m.Spaces(), root, segs[..i], seg);
      TopKeptTransitive(t, u, m.tables, m.Spaces());
      assert segs[..i + 1] == segs[..i] + [seg];
      if r != Loaded {
        return;
      }
      RightsOne(t, u, m.tables, root, segs[..i], seg);
      ShowsOne(u, pages, m.tables, m.pages, m.Spaces(), root, segs[..i], seg, data);
      i := i + 1;
    }
    assert segs[..|segs|] == segs;
    r := Loaded;
  }

  // ---- which segments survive ----

  /** `j` is the last segment with a page at `a`. */
  ghost predicate LastAt(segs: seq<Segment>, j: nat, a: nat) {
    j < |segs| && Touches(segs[j], a) && forall k :: j < k < |segs| ==> !Touches(segs[k], a)
  }

  lemma {:induction false} ImageIsLast(segs: seq<Segment>, data: Bytes, j: nat, a: nat)
    requires LastAt(segs, j, a)
    ensures Image(segs, data, a) == Some(ByteOf(segs[j], data, a))
    decreases |segs|
  {
    hide Touches, ByteOf;
    if j < |segs| - 1 {
      ImageIsLast(segs[..|segs| - 1], data, j, a);
    }
  }

  lemma {:induction false} SomeLast(segs: seq<Segment>, i: nat, a: nat) returns (j: nat)
    requires i < |segs| && Touches(segs[i], a)
    ensures i <= j && LastAt(segs, j, a)
    decreases |segs| - i
  {
    hide Touches;
    if k :| i < k < |segs| && Touches(segs[k], a) {
      j := SomeLast(segs, k, a);
    } else {
      j := i;
    }
  }

  /**
   A byte of a segment is what the process reads there if and only if no later segment shares its page, or the last one
   that does puts the same byte there.
   */
  lemma SurvivesExactly(segs: seq<Segment>, data: Bytes, i: nat, a: nat)
    requires i < |segs| && Touches(segs[i], a)
    ensures Image(segs, data, a) == Some(ByteOf(segs[i], data, a))
            <==> forall j :: i < j < |segs| && LastAt(segs, j, a) ==>
              ByteOf(segs[j], data, a) == ByteOf(segs[i], data, a)
  {
    hide Touches, ByteOf, Image;
    var j := SomeLast(segs, i, a);
    ImageIsLast(segs, data, j, a);
    forall k: nat | LastAt(segs, k, a) ensures k == j {
      assert !(k < j) && !(j < k);
    }
  }

  /** Two segments of one byte each that share a page: the first one reads as zero, not as the file says. */
  lemma SharedPageIsLost()
    ensures var segs := [Segment(0, 0x40_0000, 1, 1, 5), Segment(1, 0x40_0001, 1, 1, 6)]; var data := [7, 9];
            && segs[0].Fits() && segs[1].Fits() && ByteOf(segs[0], data, 0x40_0000) == 7
            && Image(segs, data, 0x40_0000) == Some(0) && Image(segs, data, 0x40_0001) == Some(9)
  {
    hide Image, Segment.Start, Segment.Pages, Home, Segment.Fits;
    var segs, data := [Segment(0, 0x40_0000, 1, 1, 5), Segment(1, 0x40_0001, 1, 1, 6)], [7, 9];
    OnePage(segs[0]);
    OnePage(segs[1]);
    HomeNear(segs[0], 0x40_0000);
    HomeNear(segs[1], 0x40_0000);
    HomeNear(segs[1], 0x40_0001);
    ImageIsLast(segs, data, 1, 0x40_0000);
    ImageIsLast(segs, data, 1, 0x40_0001);
  }

  lemma OnePage(seg: Segment)
    requires 0x40_0000 <= seg.vaddr < 0x40_0FFF && seg.memsz == 1 && seg.filesz == 1
    ensures seg.Start() == 0x40_0000 && seg.Pages() == 1 && seg.Fits()
  {
  }

  lemma HomeNear(seg: Segment, a: nat)
    requires seg.Start() <= a < seg.Start() + 0x1_0000_0000_0000
    ensures Home(seg, a) == a
  {
  }
}
