/** Page tables as a map from frames to tables of 512 entries: the trees of kernel/src/memory/paging.rs, lines 12-86. */
module PageTree {
  import opened BitwiseOr
  import opened Common

  const ENTRIES: nat := 512
  const HIGHER_HALF_START: nat := 256

  type Table = seq<nat>
  type Tables = map<nat, Table>

  // ---- entries ----

  const FLAG_PRESENT: nat := 1
  const FLAG_WRITABLE: nat := 2
  const FLAG_USER: nat := 4
  const FLAG_NO_EXECUTE: nat := 0x8000_0000_0000_0000

  predicate Present(e: nat) { e % 2 == 1 }

  /** The frame an entry points to: `entry & ADDR_MASK`, in frames. */
  function FrameOf(e: nat): nat { e / 0x1000 % 0x100_0000_0000 }

  function Target(e: nat): Option<nat> { if Present(e) then Some(FrameOf(e)) else None }

  /** The entry `map_in` writes into the last table. */
  function LeafEntry(phys: nat, flags: nat): nat { Or(Or(0x1000 * FrameOf(phys), flags), FLAG_PRESENT) }

  /** The entry `next_table` writes for a fresh table. */
  function TableEntry(frame: nat, extra: nat): nat { Or(Or(Or(0x1000 * frame, FLAG_PRESENT), FLAG_WRITABLE), extra) }

  /** What a mapping's flags pass on to the tables above it: `flags & FLAG_USER`. */
  function ExtraFlags(flags: nat): nat { if flags / FLAG_USER % 2 == 1 then FLAG_USER else 0 }

  lemma OrPresent(a: nat, b: nat)
    ensures Present(Or(a, b)) == (Present(a) || Present(b))
  {
    OrStep(a, b);
  }

  /** The fields of a word: flags below bit 12, frame in bits 12 to 51, flags above. */
  lemma Fields(low: nat, frame: nat, high: nat)
    requires low < 0x1000 && frame < 0x100_0000_0000
    ensures FrameOf(low + 0x1000 * (frame + 0x100_0000_0000 * high)) == frame
  {
    var up := frame + 0x100_0000_0000 * high;
    assert (low + 0x1000 * up) / 0x1000 == up;
  }

  /** The masks of the source: `ADDR_MASK` and `FLAG_PRESENT`. */
  lemma FieldIsMask(e: nat)
    ensures 0x1000 * FrameOf(e) == And(e, 0x000f_ffff_ffff_f000)
    ensures Present(e) <==> And(e, 1) == 1
  {
    FieldWidths();
    hide And, Pow2;
    AndLow(e, 1);
    AndNothing(e % 0x1000);
    AndSplit(e % 0x1000, 0, e / 0x1000, 0xff_ffff_ffff, 12);
    AndLow(e / 0x1000, 40);
  }

  /** The frame field of an or is the or of the frame fields. */
  lemma OrFrame(a: nat, b: nat)
    ensures FrameOf(Or(a, b)) == Or(FrameOf(a), FrameOf(b))
  {
    FieldWidths();
    hide Or, Pow2;
    var ua, ub := a / 0x1000, b / 0x1000;
    OrOfFields(a % 0x1000, FrameOf(a), ua / 0x100_0000_0000, b % 0x1000, FrameOf(b), ub / 0x100_0000_0000);
  }

  lemma FieldWidths()
    ensures Pow2(1) == 2 && Pow2(12) == 0x1000 && Pow2(40) == 0x100_0000_0000
  {
    Pow2Of8();
    Pow2Of24();
    Pow2Add(8, 4);
    Pow2Add(24, 16);
  }

  lemma OrOfFields(la: nat, fa: nat, ha: nat, lb: nat, fb: nat, hb: nat)
    requires la < 0x1000 && lb < 0x1000 && fa < 0x100_0000_0000 && fb < 0x100_0000_0000
    requires Pow2(12) == 0x1000 && Pow2(40) == 0x100_0000_0000
    ensures var a, b := la + 0x1000 * (fa + 0x100_0000_0000 * ha), lb + 0x1000 * (fb + 0x100_0000_0000 * hb);
            FrameOf(Or(a, b)) == Or(fa, fb)
  {
    hide Or, Pow2;
    OrSplit(la, lb, fa + 0x100_0000_0000 * ha, fb + 0x100_0000_0000 * hb, 12);
    OrSplit(fa, fb, ha, hb, 40);
    Fields(Or(la, lb), Or(fa, fb), Or(ha, hb));
  }

  /** A leaf points where it was told to when the flags carry no address bits; otherwise those are or-ed in. */
  lemma LeafFields(phys: nat, flags: nat)
    ensures Present(LeafEntry(phys, flags))
    ensures FrameOf(LeafEntry(phys, flags)) == Or(FrameOf(phys), FrameOf(flags))
    ensures FrameOf(flags) == 0 ==> FrameOf(LeafEntry(phys, flags)) == FrameOf(phys)
  {
    hide Or;
    var a := 0x1000 * FrameOf(phys);
    Fields(0, FrameOf(phys), 0);
    OrPresent(Or(a, flags), FLAG_PRESENT);
    OrFrame(Or(a, flags), FLAG_PRESENT);
    OrFrame(a, flags);
    assert FrameOf(FLAG_PRESENT) == 0;
    OrZero(Or(FrameOf(phys), FrameOf(flags)));
    OrZero(FrameOf(phys));
  }

  lemma TableFields(frame: nat, flags: nat)
    requires frame < 0x100_0000_0000
    ensures Present(TableEntry(frame, ExtraFlags(flags))) && FrameOf(TableEntry(frame, ExtraFlags(flags))) == frame
  {
    hide Or;
    var a, extra := 0x1000 * frame, ExtraFlags(flags);
    Fields(0, frame, 0);
    OrPresent(a, FLAG_PRESENT);
    OrPresent(Or(a, FLAG_PRESENT), FLAG_WRITABLE);
    OrPresent(Or(Or(a, FLAG_PRESENT), FLAG_WRITABLE), extra);
    OrFrame(a, FLAG_PRESENT);
    OrFrame(Or(a, FLAG_PRESENT), FLAG_WRITABLE);
    OrFrame(Or(Or(a, FLAG_PRESENT), FLAG_WRITABLE), extra);
    OrZero(frame);
  }

  // ---- addresses ----

  /** `page_indices` */
  function Path(virt: nat): (p: seq<nat>)
    ensures |p| == 4 && Legal(p)
  {
    [virt / 0x80_0000_0000 % 512, virt / 0x4000_0000 % 512, virt / 0x20_0000 % 512, virt / 0x1000 % 512]
  }

  lemma LegalPath(virt: nat)
    ensures var p := Path(virt); |p| == 4 && p[0] < ENTRIES && p[1] < ENTRIES && p[2] < ENTRIES && p[3] < ENTRIES
  {
  }

  /** Two addresses in the same page, as far as bits 12 to 47 tell. */
  predicate SamePage(v: nat, w: nat) { v / 0x1000 % 0x10_0000_0000 == w / 0x1000 % 0x10_0000_0000 }

  lemma PathOfPage(virt: nat)
    ensures var p := virt / 0x1000;
            Path(virt) == [p / 0x800_0000 % 512, p / 0x4_0000 % 512, p / 0x200 % 512, p % 512]
  {
    assert virt / 0x20_0000 == virt / 0x1000 / 0x200;
    assert virt / 0x4000_0000 == virt / 0x1000 / 0x4_0000;
    assert virt / 0x80_0000_0000 == virt / 0x1000 / 0x800_0000;
  }

  /** The four indices are the digits of the low 36 bits of the page number. */
  lemma Digits(p: nat)
    ensures p % 0x10_0000_0000
            == p / 0x800_0000 % 512 * 0x800_0000 + p / 0x4_0000 % 512 * 0x4_0000 + p / 0x200 % 512 * 0x200 + p % 512
  {
    var a, b, c := p / 0x200, p / 0x4_0000, p / 0x800_0000;
    assert b == a / 512 && c == b / 512;
    assert p == a * 512 + p % 512 && a == b * 512 + a % 512 && b == c * 512 + b % 512 && c == c / 512 * 512 + c % 512;
    var low := c % 512 * 0x800_0000 + b % 512 * 0x4_0000 + a % 512 * 0x200 + p % 512;
    assert p == c / 512 * 0x10_0000_0000 + low;
    DivUnique(p, 0x10_0000_0000, c / 512, low);
  }

  lemma PathIsPage(v: nat, w: nat)
    ensures Path(v) == Path(w) <==> SamePage(v, w)
  {
    PathOfPage(v);
    PathOfPage(w);
    var p, q := v / 0x1000, w / 0x1000;
    Digits(p);
    Digits(q);
    hide Path;
    if SamePage(v, w) {
      SameIndices(p, q);
    }
  }

  /** The higher half of the address space is that with bit 47 set. */
  lemma HigherHalf(virt: nat)
    ensures Path(virt)[0] >= HIGHER_HALF_START <==> virt / 0x8000_0000_0000 % 2 == 1
  {
    assert virt / 0x8000_0000_0000 == virt / 0x80_0000_0000 / 256;
    HalfOfTable(virt / 0x80_0000_0000);
  }

  lemma HalfOfTable(p: nat)
    ensures p % 512 >= 256 <==> p / 256 % 2 == 1
  {
  }

  /** The indices depend on the low 36 bits of the page number only. */
  lemma SameIndices(p: nat, q: nat)
    requires p % 0x10_0000_0000 == q % 0x10_0000_0000
    ensures p / 0x800_0000 % 512 == q / 0x800_0000 % 512 && p / 0x4_0000 % 512 == q / 0x4_0000 % 512
    ensures p / 0x200 % 512 == q / 0x200 % 512 && p % 512 == q % 512
  {
    LowIndices(p / 0x10_0000_0000, p % 0x10_0000_0000);
    LowIndices(q / 0x10_0000_0000, q % 0x10_0000_0000);
  }

  lemma LowIndices(up: nat, low: nat)
    requires low < 0x10_0000_0000
    ensures var p := 0x10_0000_0000 * up + low;
            p / 0x800_0000 % 512 == low / 0x800_0000 && p / 0x4_0000 % 512 == low / 0x4_0000 % 512
            && p / 0x200 % 512 == low / 0x200 % 512 && p % 512 == low % 512
  {
    var p := 0x10_0000_0000 * up + low;
    assert p / 0x800_0000 == 512 * up + low / 0x800_0000;
    assert p / 0x4_0000 == 512 * (512 * up) + low / 0x4_0000;
    assert p / 0x200 == 512 * (0x4_0000 * up) + low / 0x200;
    assert p == 512 * (0x800_0000 * up) + low;
    Drop512(512 * up, low / 0x4_0000);
    Drop512(0x4_0000 * up, low / 0x200);
    Drop512(0x800_0000 * up, low);
  }

  lemma Drop512(a: nat, b: nat)
    ensures (512 * a + b) % 512 == b % 512
  {
  }

  // ---- walks ----

  function At(t: Tables, f: nat, i: nat): nat { if f in t && i < |t[f]| then t[f][i] else 0 }

  /** The frame entry `i` of table `f` points to. */
  function Step(t: Tables, f: nat, i: nat): Option<nat> { Target(At(t, f, i)) }

  /** The frame reached from table `f` along `path`, if every entry on the way is present. */
  function Walk(t: Tables, f: nat, path: seq<nat>): Option<nat>
    requires |path| > 0
    decreases |path|
  {
    var next := Step(t, f, path[0]);
    if |path| == 1 || next.None? then next else Walk(t, next.value, path[1..])
  }

  /** The last table on the way along `path`. */
  function LastTable(t: Tables, f: nat, path: seq<nat>): Option<nat>
    requires |path| > 0
    decreases |path|
  {
    if |path| == 1 then Some(f)
    else var next := Step(t, f, path[0]); if next.None? then None else LastTable(t, next.value, path[1..])
  }

  /** The physical address `virt` maps to in the space rooted at `root`. */
  function Translate(t: Tables, root: nat, virt: nat): Option<nat> {
    match Walk(t, root, Path(virt))
    case None => None
    case Some(frame) => Some(0x1000 * frame + virt % 0x1000)
  }

  predicate Legal(path: seq<nat>) { forall k :: 0 <= k < |path| ==> path[k] < ENTRIES }

  // ---- well-formed trees ----

  /** Every table has a level: 4 for a PML4, 1 for a table of pages. */
  predicate Formed(t: Tables, level: map<nat, nat>) {
    && t.Keys == level.Keys
    && forall f :: f in t ==> |t[f]| == ENTRIES && 1 <= level[f] <= 4 && f < 0x100_0000_0000
  }

  /** Entries above the last level point to tables one level down. */
  ghost predicate Layered(t: Tables, level: map<nat, nat>)
    requires t.Keys == level.Keys
  {
    forall f: nat, i: nat :: f in t && level[f] > 1 && Step(t, f, i).Some? ==>
      Step(t, f, i).value in t && level[Step(t, f, i).value] == level[f] - 1
  }

  /** No table has two parents, except that PML4s may share an entry of the higher half. */
  ghost predicate Unaliased(t: Tables, level: map<nat, nat>)
    requires t.Keys == level.Keys
  {
    forall f: nat, i: nat, g: nat, j: nat ::
      f in t && g in t && level[f] > 1 && level[g] > 1 && Step(t, f, i).Some? && Step(t, f, i) == Step(t, g, j) ==>
      i == j && (f == g || (level[f] == 4 && i >= HIGHER_HALF_START))
  }

  ghost predicate Tree(t: Tables, level: map<nat, nat>) {
    Formed(t, level) && Layered(t, level) && Unaliased(t, level)
  }

  ghost function Roots(level: map<nat, nat>): set<nat> { set f | f in level && level[f] == 4 }

  /** Whether two spaces share what lies below entry `i` of their PML4s. */
  predicate Shares(t: Tables, r: nat, s: nat, i: nat) {
    r == s || (i >= HIGHER_HALF_START && Step(t, r, i).Some? && Step(t, r, i) == Step(t, s, i))
  }

  lemma RootTable(t: Tables, level: map<nat, nat>, root: nat)
    requires Tree(t, level) && root in Roots(level)
    ensures root in t && root in level && level[root] == 4
  {
  }

  /** Reading an entry of a table takes the walk one step further down. */
  lemma ReadEntry(t: Tables, level: map<nat, nat>, f: nat, i: nat)
    requires Tree(t, level) && f in t && i < ENTRIES
    ensures f in level && |t[f]| == ENTRIES && Step(t, f, i) == Target(t[f][i])
    ensures level[f] > 1 && Step(t, f, i).Some? ==>
              var g := Step(t, f, i).value; g in t && g in level && level[g] == level[f] - 1
  {
  }

  lemma Unroll(t: Tables, f: nat, path: seq<nat>)
    requires |path| > 1
    ensures var next := Step(t, f, path[0]);
            && LastTable(t, f, path)
               == (if next.None? then None else if |path| == 2 then next else LastTable(t, next.value, path[1..]))
            && Walk(t, f, path)
               == (if next.None? then None
                   else if |path| == 2 then Step(t, next.value, path[1]) else Walk(t, next.value, path[1..]))
  {
  }

  /** A walk from a PML4 reads four entries. */
  lemma FourHops(t: Tables, root: nat, path: seq<nat>)
    requires |path| == 4
    ensures var a := Step(t, root, path[0]);
            if a.None? then LastTable(t, root, path) == Walk(t, root, path) == None
            else var b := Step(t, a.value, path[1]);
              if b.None? then LastTable(t, root, path) == Walk(t, root, path) == None
              else var c := Step(t, b.value, path[2]);
                LastTable(t, root, path) == c
                  && Walk(t, root, path) == if c.None? then None else Step(t, c.value, path[3])
  {
    hide Step;
    var three := path[1..];
    var two := three[1..];
    assert three[0] == path[1] && two[0] == path[2] && two[1..] == [path[3]];
    Unroll(t, root, path);
    hide Walk, LastTable;
    if Step(t, root, path[0]).Some? {
      Unroll(t, Step(t, root, path[0]).value, three);
      if Step(t, Step(t, root, path[0]).value, path[1]).Some? {
        Unroll(t, Step(t, Step(t, root, path[0]).value, path[1]).value, two);
      }
    }
  }

  lemma DownOne(t: Tables, level: map<nat, nat>, f: nat, i: nat)
    requires Tree(t, level) && f in t && level[f] > 1 && Step(t, f, i).Some?
    ensures Step(t, f, i).value in t && level[Step(t, f, i).value] == level[f] - 1
  {
  }

  /**
   A walk that ends in the same last table came by the same path, from the same root unless the higher half is shared.
   */
  lemma {:induction false} OneWayThere(t: Tables, level: map<nat, nat>, f: nat, p: seq<nat>, g: nat, q: seq<nat>)
    requires Tree(t, level) && f in t && g in t && |p| == level[f] && |q| == level[g] && |p| == |q|
    requires LastTable(t, f, p).Some? && LastTable(t, f, p) == LastTable(t, g, q) && p[|p| - 1] == q[|q| - 1]
    ensures p == q && (f == g || (level[f] == 4 && Shares(t, f, g, p[0])))
    decreases |p|
  {
    if |p| > 1 {
      DownOne(t, level, f, p[0]);
      DownOne(t, level, g, q[0]);
      var f', g' := Step(t, f, p[0]).value, Step(t, g, q[0]).value;
      OneWayThere(t, level, f', p[1..], g', q[1..]);
      assert f' == g';
      assert p == [p[0]] + p[1..] && q == [q[0]] + q[1..];
    } else {
      assert p == [p[0]] && q == [q[0]];
    }
  }

  // ---- the three ways the trees change ----

  function Zero(): (z: Table)
    ensures |z| == ENTRIES && forall i :: 0 <= i < ENTRIES ==> z[i] == 0
  {
    seq(ENTRIES, _ => 0)
  }

  function Write(t: Tables, f: nat, i: nat, e: nat): Tables
    requires f in t && i < |t[f]|
  {
    var table: Table := t[f];
    t[f := table[i := e]]
  }

  lemma WriteStep(t: Tables, f: nat, i: nat, e: nat, g: nat, j: nat)
    requires f in t && i < |t[f]|
    ensures Step(Write(t, f, i, e), g, j)
            == if (f, i) == (g, j) then Target(e) else Step(t, g, j)
  {
  }

  lemma WriteAt(t: Tables, f: nat, i: nat, e: nat, g: nat, j: nat)
    requires f in t && i < |t[f]|
    ensures At(Write(t, f, i, e), g, j) == if (f, i) == (g, j) then e else At(t, g, j)
  {
  }

  lemma ZeroStep(t: Tables, added: nat, g: nat, j: nat)
    ensures Step(t[added := Zero()], g, j) == if g == added then None else Step(t, g, j)
  {
  }

  /** `next_table`'s change: an absent entry comes to point to a fresh table of zeros. No translation changes. */
  lemma GrowTree(t: Tables, level: map<nat, nat>, f: nat, i: nat, e: nat, added: nat)
    requires Tree(t, level) && f in t && level[f] > 1 && i < ENTRIES && Step(t, f, i).None?
    requires added !in t && added < 0x100_0000_0000 && Present(e) && FrameOf(e) == added
    ensures var u := Write(t[added := Zero()], f, i, e);
            Tree(u, level[added := level[f] - 1]) && Step(u, f, i) == Some(added)
            && u.Keys == t.Keys + {added} && Roots(level[added := level[f] - 1]) == Roots(level)
  {
    var u := Write(t[added := Zero()], f, i, e);
    forall g: nat, j: nat
      ensures Step(u, g, j) == if (g, j) == (f, i) then Some(added) else if g == added then None else Step(t, g, j)
    {
      WriteStep(t[added := Zero()], f, i, e, g, j);
      ZeroStep(t, added, g, j);
    }
    hide Step;
  }

  lemma {:induction false} GrowWalk(t: Tables, level: map<nat, nat>, f: nat, i: nat, e: nat, added: nat, g: nat,
      path: seq<nat>)
    requires Tree(t, level) && f in t && level[f] > 1 && i < ENTRIES && Step(t, f, i).None?
    requires added !in t && Present(e) && FrameOf(e) == added
    requires g in t && |path| == level[g]
    ensures Walk(Write(t[added := Zero()], f, i, e), g, path) == Walk(t, g, path)
    decreases |path|
  {
    var z := t[added := Zero()];
    var u := Write(z, f, i, e);
    WriteStep(z, f, i, e, g, path[0]);
    ZeroStep(t, added, g, path[0]);
    if (g, path[0]) == (f, i) {
      WriteStep(z, f, i, e, added, path[1]);
      ZeroStep(t, added, added, path[1]);
    } else if |path| > 1 && Step(t, g, path[0]).Some? {
      DownOne(t, level, g, path[0]);
      GrowWalk(t, level, f, i, e, added, Step(t, g, path[0]).value, path[1..]);
    }
  }

  /** `map_in` and `unmap_in` write one entry of a last-level table. */
  lemma SetLeaf(t: Tables, level: map<nat, nat>, f: nat, i: nat, e: nat)
    requires Tree(t, level) && f in t && level[f] == 1 && i < ENTRIES
    ensures Tree(Write(t, f, i, e), level) && Write(t, f, i, e).Keys == t.Keys
  {
    var u := Write(t, f, i, e);
    forall g: nat, j: nat ensures Step(u, g, j) == if (f, i) == (g, j) then Target(e) else Step(t, g, j) {
      WriteStep(t, f, i, e, g, j);
    }
    hide Step;
  }

  lemma {:induction false} SetLeafWalk(t: Tables, level: map<nat, nat>, f: nat, i: nat, e: nat, g: nat, path: seq<nat>)
    requires Tree(t, level) && f in t && level[f] == 1 && i < ENTRIES
    requires g in t && |path| == level[g]
    ensures Walk(Write(t, f, i, e), g, path)
            == if LastTable(t, g, path) == Some(f) && path[|path| - 1] == i
               then Target(e) else Walk(t, g, path)
    decreases |path|
  {
    WriteStep(t, f, i, e, g, path[0]);
    if |path| > 1 && Step(t, g, path[0]).Some? {
      DownOne(t, level, g, path[0]);
      SetLeafWalk(t, level, f, i, e, Step(t, g, path[0]).value, path[1..]);
    }
  }

  /** `AddressSpace::new` copies an entry of the higher half from one PML4 to another that lacks it. */
  lemma ShareEntry(t: Tables, level: map<nat, nat>, src: nat, dst: nat, i: nat)
    requires Tree(t, level) && src in Roots(level) && dst in Roots(level) && HIGHER_HALF_START <= i < ENTRIES
    requires Step(t, dst, i).None?
    ensures var u := Write(t, dst, i, At(t, src, i)); Tree(u, level)
  {
    var e := At(t, src, i);
    var u := Write(t, dst, i, e);
    forall g: nat, j: nat ensures Step(u, g, j) == if (dst, i) == (g, j) then Step(t, src, i) else Step(t, g, j) {
      WriteStep(t, dst, i, e, g, j);
    }
    hide Step;
  }

  lemma {:induction false} ShareWalk(t: Tables, level: map<nat, nat>, src: nat, dst: nat, i: nat, g: nat,
      path: seq<nat>)
    requires Tree(t, level) && src in Roots(level) && dst in Roots(level) && HIGHER_HALF_START <= i < ENTRIES
    requires src != dst && g in t && |path| == level[g]
    ensures var u := Write(t, dst, i, At(t, src, i));
            Walk(u, g, path) == if g == dst && path[0] == i then Walk(t, src, path) else Walk(t, g, path)
    decreases |path|
  {
    var u := Write(t, dst, i, At(t, src, i));
    WriteStep(t, dst, i, At(t, src, i), g, path[0]);
    var from := if g == dst && path[0] == i then src else g;
    if |path| > 1 && Step(t, from, path[0]).Some? {
      DownOne(t, level, from, path[0]);
      ShareWalk(t, level, src, dst, i, Step(t, from, path[0]).value, path[1..]);
    }
  }

  /** `AddressSpace::new` starts from an empty PML4. */
  lemma AddRoot(t: Tables, level: map<nat, nat>, root: nat)
    requires Tree(t, level) && root !in t && root < 0x100_0000_0000
    ensures Tree(t[root := Zero()], level[root := 4]) && Roots(level[root := 4]) == Roots(level) + {root}
  {
    var u := t[root := Zero()];
    forall g: nat, j: nat ensures Step(u, g, j) == if g == root then None else Step(t, g, j) {
      ZeroStep(t, root, g, j);
    }
    hide Step;
  }

  lemma {:induction false} AddRootWalk(t: Tables, level: map<nat, nat>, root: nat, g: nat, path: seq<nat>)
    requires Tree(t, level) && root !in t && g in t && |path| == level[g]
    ensures Walk(t[root := Zero()], g, path) == Walk(t, g, path)
    decreases |path|
  {
    ZeroStep(t, root, g, path[0]);
    if |path| > 1 && Step(t, g, path[0]).Some? {
      DownOne(t, level, g, path[0]);
      AddRootWalk(t, level, root, Step(t, g, path[0]).value, path[1..]);
    }
  }

  // ---- what the operations do to the translations ----

  /** `u` has more tables than `t`, but translates every address of every space alike, and shares alike. */
  ghost predicate Extends(t: Tables, level: map<nat, nat>, u: Tables, level': map<nat, nat>) {
    && t.Keys == level.Keys && (forall g :: g in level ==> level[g] > 0 && g in level' && level'[g] == level[g])
    && Roots(level') == Roots(level)
    && (forall g: nat, path: seq<nat> :: g in level && |path| == level[g] ==> Walk(u, g, path) == Walk(t, g, path))
    && (forall g: nat, i: nat :: g in level && Step(t, g, i).Some? ==> Step(u, g, i) == Step(t, g, i))
    && (forall r: nat, s: nat, i: nat :: r in Roots(level) && s in Roots(level) ==>
      Shares(u, r, s, i) == Shares(t, r, s, i))
  }

  lemma GrowExtends(t: Tables, level: map<nat, nat>, f: nat, i: nat, e: nat, added: nat)
    requires Tree(t, level) && f in t && level[f] > 1 && i < ENTRIES && Step(t, f, i).None?
    requires added !in t && added < 0x100_0000_0000 && Present(e) && FrameOf(e) == added
    ensures Extends(t, level, Write(t[added := Zero()], f, i, e), level[added := level[f] - 1])
    ensures OnlyEntry(t, Write(t[added := Zero()], f, i, e), level.Keys, f, i)
  {
    var z := t[added := Zero()];
    var u := Write(z, f, i, e);
    forall g: nat, path: seq<nat> | g in level && |path| == level[g] ensures Walk(u, g, path) == Walk(t, g, path) {
      GrowWalk(t, level, f, i, e, added, g, path);
    }
    forall g: nat, j: nat | g in level
      ensures Step(u, g, j) == if (g, j) == (f, i) then Some(added) else Step(t, g, j)
    {
      WriteStep(z, f, i, e, g, j);
      ZeroStep(t, added, g, j);
    }
    hide Step, Walk, Write;
    forall r: nat, s: nat, j: nat | r in Roots(level) && s in Roots(level)
      ensures Shares(u, r, s, j) == Shares(t, r, s, j)
    {
      if Step(t, r, j).Some? { DownOne(t, level, r, j); }
      if Step(t, s, j).Some? { DownOne(t, level, s, j); }
    }
  }

  /** Of the entries of these tables only entry `i` of table `f` may have changed where it leads. */
  ghost predicate OnlyEntry(t: Tables, u: Tables, tables: set<nat>, f: nat, i: nat) {
    forall g: nat, j: nat :: g in tables && (g, j) != (f, i) ==> Step(u, g, j) == Step(t, g, j)
  }

  /** A change below the PML4s, or none, changes no PML4. */
  ghost predicate TopSame(t: Tables, u: Tables, roots: set<nat>) {
    forall r: nat, i: nat :: r in roots ==> Step(u, r, i) == Step(t, r, i)
  }

  lemma TopOnly(t: Tables, level: map<nat, nat>, u: Tables, f: nat, i: nat)
    requires OnlyEntry(t, u, level.Keys, f, i)
    ensures OnlyEntry(t, u, Roots(level), f, i)
  {
    hide Step;
  }

  /** A further change, to a table below the PML4s, adds nothing to what has changed in these. */
  lemma BelowTop(t: Tables, level: map<nat, nat>, u: Tables, level': map<nat, nat>, v: Tables, root: nat, i: nat,
      f: nat, j: nat)
    requires Extends(t, level, u, level') && OnlyEntry(t, u, Roots(level), root, i) && root in Roots(level)
    requires f in level' && level'[f] != 4 && OnlyEntry(u, v, level'.Keys, f, j)
    ensures OnlyEntry(t, v, Roots(level), root, i) && Step(v, root, i) == Step(u, root, i)
  {
    hide Step, Walk, Shares;
    assert Roots(level) <= level'.Keys && f !in Roots(level);
  }

  lemma SameTop(t: Tables, u: Tables, v: Tables, roots: set<nat>, root: nat, i: nat)
    requires OnlyEntry(t, u, roots, root, i) && TopSame(u, v, roots) && root in roots
    ensures OnlyEntry(t, v, roots, root, i) && Step(v, root, i) == Step(u, root, i)
  {
    hide Step;
  }

  lemma ExtendsReflexive(t: Tables, level: map<nat, nat>)
    requires Tree(t, level)
    ensures Extends(t, level, t, level)
    ensures forall f: nat, i: nat :: OnlyEntry(t, t, level.Keys, f, i)
  {
  }

  lemma ExtendsStep(t: Tables, level: map<nat, nat>, u: Tables, level': map<nat, nat>, g: nat, i: nat)
    requires Extends(t, level, u, level') && g in level
    ensures g in level' && level'[g] == level[g]
    ensures Step(t, g, i).Some? ==> Step(u, g, i) == Step(t, g, i)
  {
  }

  lemma ExtendsSpaces(t: Tables, level: map<nat, nat>, u: Tables, level': map<nat, nat>)
    requires Extends(t, level, u, level')
    ensures Roots(level') == Roots(level)
    ensures forall r: nat, v: nat :: r in Roots(level) ==> Translate(u, r, v) == Translate(t, r, v)
    ensures TopKept(t, u, Roots(level))
  {
    hide Walk, Path, Shares;
  }

  /** PML4 entries that are present stay as they are, and the spaces share exactly what they shared before. */
  ghost predicate TopKept(t: Tables, u: Tables, roots: set<nat>) {
    && (forall r: nat, i: nat :: r in roots && Step(t, r, i).Some? ==> Step(u, r, i) == Step(t, r, i))
    && (forall r: nat, s: nat, i: nat :: r in roots && s in roots ==> Shares(u, r, s, i) == Shares(t, r, s, i))
  }

  lemma LeafShares(t: Tables, level: map<nat, nat>, pt: nat, i: nat, e: nat)
    requires Tree(t, level) && pt in t && level[pt] == 1 && i < ENTRIES
    ensures TopKept(t, Write(t, pt, i, e), Roots(level)) && TopSame(t, Write(t, pt, i, e), Roots(level))
  {
    forall g: nat, j: nat
      ensures Step(Write(t, pt, i, e), g, j) == if (pt, i) == (g, j) then Target(e) else Step(t, g, j)
    {
      WriteStep(t, pt, i, e, g, j);
    }
    hide Step, Write;
  }

  lemma ExtendsTransitive(t: Tables, l: map<nat, nat>, u: Tables, l': map<nat, nat>, v: Tables, l'': map<nat, nat>)
    requires Extends(t, l, u, l') && Extends(u, l', v, l'')
    ensures Extends(t, l, v, l'')
  {
    hide Walk, Step, Shares;
  }

  /** The page of `virt` now leads to `to` in every space that shares it with `root`; nothing else has changed. */
  ghost predicate Remapped(t: Tables, u: Tables, roots: set<nat>, root: nat, virt: nat, to: Option<nat>) {
    forall r: nat, v: nat :: r in roots ==>
      Translate(u, r, v)
      == if SamePage(v, virt) && Shares(t, r, root, Path(virt)[0])
         then (if to.Some? then Some(0x1000 * to.value + v % 0x1000) else None)
         else Translate(t, r, v)
  }

  /** Three tables added one below the other, or found there, make a path to a last table. */
  lemma PathBuilt(t: Tables, l: map<nat, nat>, t1: Tables, l1: map<nat, nat>, t2: Tables, l2: map<nat, nat>,
      t3: Tables, l3: map<nat, nat>, root: nat, p: seq<nat>, a: nat, b: nat, c: nat)
    requires |p| == 4 && Extends(t, l, t1, l1) && Extends(t1, l1, t2, l2) && Extends(t2, l2, t3, l3)
    requires root in l1 && Step(t1, root, p[0]) == Some(a)
    requires a in l1 && a in l2 && Step(t2, a, p[1]) == Some(b)
    requires b in l2 && Step(t3, b, p[2]) == Some(c)
    ensures Extends(t, l, t3, l3) && LastTable(t3, root, p) == Some(c)
  {
    ExtendsTransitive(t, l, t1, l1, t2, l2);
    ExtendsTransitive(t, l, t2, l2, t3, l3);
    ExtendsStep(t1, l1, t2, l2, root, p[0]);
    ExtendsStep(t2, l2, t3, l3, root, p[0]);
    ExtendsStep(t2, l2, t3, l3, a, p[1]);
    FourHops(t3, root, p);
  }

  /** Which walks end at the leaf that `root` reaches by `path`. */
  lemma SameLeaf(t: Tables, level: map<nat, nat>, root: nat, path: seq<nat>, r: nat, q: seq<nat>)
    requires Tree(t, level) && root in Roots(level) && r in Roots(level) && |path| == |q| == 4
    requires LastTable(t, root, path).Some?
    ensures LastTable(t, r, q) == LastTable(t, root, path) && q[3] == path[3]
            <==> q == path && Shares(t, r, root, path[0])
  {
    if LastTable(t, r, q) == LastTable(t, root, path) && q[3] == path[3] {
      OneWayThere(t, level, r, q, root, path);
    }
  }

  /** Writing the leaf of `virt` remaps its page, seen from the tables before they were extended. */
  lemma LeafWalk(t: Tables, level: map<nat, nat>, u: Tables, level': map<nat, nat>, root: nat, virt: nat, pt: nat,
      e: nat, r: nat, v: nat)
    requires Tree(t, level) && Tree(u, level') && Extends(t, level, u, level') && root in Roots(level)
             && r in Roots(level)
    requires LastTable(u, root, Path(virt)) == Some(pt) && pt in u && level'[pt] == 1
    ensures Walk(Write(u, pt, Path(virt)[3], e), r, Path(v))
            == if SamePage(v, virt) && Shares(t, r, root, Path(virt)[0]) then Target(e) else Walk(t, r, Path(v))
  {
    hide Path, Walk, LastTable, Write, Shares, SamePage, Step, FrameOf, Present;
    assert r in Roots(level') && level'[r] == 4;
    SetLeafWalk(u, level', pt, Path(virt)[3], e, r, Path(v));
    SameLeaf(u, level', root, Path(virt), r, Path(v));
    PathIsPage(v, virt);
  }

  lemma LeafRemaps(t: Tables, level: map<nat, nat>, u: Tables, level': map<nat, nat>, root: nat, virt: nat, pt: nat,
      e: nat)
    requires Tree(t, level) && Tree(u, level') && Extends(t, level, u, level') && root in Roots(level)
    requires LastTable(u, root, Path(virt)) == Some(pt) && pt in u && level'[pt] == 1
    ensures Remapped(t, Write(u, pt, Path(virt)[3], e), Roots(level), root, virt, Target(e))
  {
    hide Path, Walk, LastTable, Write, Shares, SamePage, Target, Tree, Extends, Roots;
    forall r: nat, v: nat | r in Roots(level) {
      LeafWalk(t, level, u, level', root, virt, pt, e, r, v);
    }
  }

  /** Nothing to remap when the page leads nowhere already. */
  lemma AlreadyUnmapped(t: Tables, roots: set<nat>, root: nat, virt: nat)
    ensures Walk(t, root, Path(virt)).None? ==> Remapped(t, t, roots, root, virt, None)
  {
    if Walk(t, root, Path(virt)).None? {
      forall r: nat, v: nat | r in roots && SamePage(v, virt) && Shares(t, r, root, Path(virt)[0])
        ensures Walk(t, r, Path(v)).None?
      {
        PathIsPage(v, virt);
      }
    }
  }

  lemma ZeroIsAbsent()
    ensures Target(0) == None
  {
  }

  /**
   `root` is a new PML4 that has the entries `HIGHER_HALF_START..k` of `src` so far; the other tables are those of `t`.
   */
  ghost predicate Copied(t: Tables, level: map<nat, nat>, src: nat, u: Tables, level': map<nat, nat>, root: nat,
      k: nat) {
    && t.Keys == level.Keys && (forall g :: g in level ==> level[g] > 0)
    && level' == level[root := 4] && Tree(u, level') && root !in t && src in Roots(level)
    && (forall g: nat, path: seq<nat> :: g in level && |path| == level[g] ==> Walk(u, g, path) == Walk(t, g, path))
    && (forall path: seq<nat> :: |path| == 4 ==>
          Walk(u, root, path) == if HIGHER_HALF_START <= path[0] < k then Walk(t, src, path) else None)
    && (forall g: nat, i: nat :: g in level ==> Step(u, g, i) == Step(t, g, i))
    && (forall i: nat :: Step(u, root, i) == if HIGHER_HALF_START <= i < k then Step(t, src, i) else None)
    && (forall g: nat, i: nat :: g in level ==> At(u, g, i) == At(t, g, i))
    && (forall i: nat :: At(u, root, i) == if HIGHER_HALF_START <= i < k then At(t, src, i) else 0)
  }

  lemma StartCopy(t: Tables, level: map<nat, nat>, src: nat, root: nat)
    requires Tree(t, level) && root !in t && root < 0x100_0000_0000 && src in Roots(level)
    ensures Copied(t, level, src, t[root := Zero()], level[root := 4], root, HIGHER_HALF_START)
  {
    var u := t[root := Zero()];
    AddRoot(t, level, root);
    forall g: nat, i: nat ensures Step(u, g, i) == if g == root then None else Step(t, g, i) {
      ZeroStep(t, root, g, i);
    }
    hide Step, Tree, Target;
    forall g: nat, path: seq<nat> | g in level && |path| == level[g] {
      AddRootWalk(t, level, root, g, path);
    }
  }

  lemma CopyOne(t: Tables, level: map<nat, nat>, src: nat, u: Tables, level': map<nat, nat>, root: nat, k: nat)
    requires Copied(t, level, src, u, level', root, k) && HIGHER_HALF_START <= k < ENTRIES
    ensures Copied(t, level, src, Write(u, root, k, At(u, src, k)), level', root, k + 1)
  {
    var v := Write(u, root, k, At(u, src, k));
    ShareEntry(u, level', src, root, k);
    forall g: nat, i: nat ensures Step(v, g, i) == if (root, k) == (g, i) then Step(u, src, k) else Step(u, g, i) {
      WriteStep(u, root, k, At(u, src, k), g, i);
    }
    forall g: nat, i: nat ensures At(v, g, i) == if (root, k) == (g, i) then At(u, src, k) else At(u, g, i) {
      WriteAt(u, root, k, At(u, src, k), g, i);
    }
    hide Step, Tree, Write, At;
    forall g: nat, path: seq<nat> | g in level && |path| == level[g] {
      ShareWalk(u, level', src, root, k, g, path);
    }
    forall path: seq<nat> | |path| == 4 {
      ShareWalk(u, level', src, root, k, root, path);
    }
  }

  /** The space `root` has the higher half of `src` and nothing else, and shares the tables that `src` had there. */
  ghost predicate Forked(t: Tables, level: map<nat, nat>, src: nat, u: Tables, level': map<nat, nat>, root: nat) {
    && Roots(level') == Roots(level) + {root} && root !in Roots(level)
    && (forall r: nat, v: nat :: r in Roots(level) ==> Translate(u, r, v) == Translate(t, r, v))
    && (forall v: nat :: Translate(u, root, v) == if Path(v)[0] < HIGHER_HALF_START then None else Translate(t, src, v))
    && TopKept(t, u, Roots(level)) && TopSame(t, u, Roots(level))
    && (forall i: nat :: HIGHER_HALF_START <= i < ENTRIES ==>
          Step(u, root, i) == Step(t, src, i) && Shares(u, root, src, i) == Step(t, src, i).Some?)
    && (forall i: nat :: i < HIGHER_HALF_START ==> Step(u, root, i).None?)
  }

  lemma CopyForks(t: Tables, level: map<nat, nat>, src: nat, u: Tables, level': map<nat, nat>, root: nat)
    requires Copied(t, level, src, u, level', root, ENTRIES)
    ensures Forked(t, level, src, u, level', root)
  {
    assert Roots(level') == Roots(level) + {root} && root !in Roots(level);
    forall r: nat, v: nat | r in Roots(level) {
      CopyTranslate(t, level, src, u, level', root, r, v);
    }
    forall v: nat {
      CopyTranslate(t, level, src, u, level', root, src, v);
    }
    CopyShares(t, level, src, u, level', root);
    hide Copied, Path, Translate, Step, Shares, Roots;
  }

  lemma CopyTranslate(t: Tables, level: map<nat, nat>, src: nat, u: Tables, level': map<nat, nat>, root: nat, r: nat,
      v: nat)
    requires Copied(t, level, src, u, level', root, ENTRIES) && r in Roots(level)
    ensures Translate(u, r, v) == Translate(t, r, v)
    ensures Translate(u, root, v) == if Path(v)[0] < HIGHER_HALF_START then None else Translate(t, src, v)
  {
    hide Walk, Step, Tree, Path;
    assert Path(v)[0] < ENTRIES;
  }

  lemma CopyShares(t: Tables, level: map<nat, nat>, src: nat, u: Tables, level': map<nat, nat>, root: nat)
    requires Copied(t, level, src, u, level', root, ENTRIES)
    ensures TopKept(t, u, Roots(level)) && TopSame(t, u, Roots(level))
    ensures forall i: nat :: HIGHER_HALF_START <= i < ENTRIES ==>
              Step(u, root, i) == Step(t, src, i) && Shares(u, root, src, i) == Step(t, src, i).Some?
    ensures forall i: nat :: i < HIGHER_HALF_START ==> Step(u, root, i).None?
  {
    hide Walk, Step, Tree, At;
    assert root != src;
  }

  lemma CopiedTables(t: Tables, level: map<nat, nat>, src: nat, u: Tables, level': map<nat, nat>, root: nat, k: nat)
    requires Copied(t, level, src, u, level', root, k) && k < ENTRIES
    ensures root in u && src in u && root != src && |u[src]| == |u[root]| == ENTRIES && At(u, src, k) == u[src][k]
    ensures Write(u, root, k, At(u, src, k)).Keys == u.Keys
  {
  }

  lemma CopiedParts(t: Tables, level: map<nat, nat>, src: nat, u: Tables, level': map<nat, nat>, root: nat, k: nat)
    requires Copied(t, level, src, u, level', root, k)
    ensures Tree(u, level') && src in Roots(level')
  {
  }

  lemma TopKeptTransitive(t: Tables, u: Tables, v: Tables, roots: set<nat>)
    requires TopKept(t, u, roots) && TopKept(u, v, roots)
    ensures TopKept(t, v, roots)
  {
    hide Step, Shares;
  }
}
