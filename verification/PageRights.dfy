/** Who may use a page and how: the flags on the way down the tables of kernel/src/memory/paging.rs. */
module PageRights {
  import opened BitwiseOr
  import opened Common
  import opened PageTree

  /** What the processor checks in every entry of a walk. */
  datatype Right = Writing | UserMode | Executing

  predicate Bit(e: nat, n: nat) { High(e, n) % 2 == 1 }

  predicate Permits(e: nat, right: Right) {
    match right
    case Writing => Bit(e, 1)
    case UserMode => Bit(e, 2)
    case Executing => !Bit(e, 63)
  }

  /** Each of the three flags decides one right. */
  lemma FlagRights(right: Right)
    ensures Permits(FLAG_WRITABLE, right) <==> right != UserMode
    ensures Permits(FLAG_USER, right) <==> right != Writing
    ensures !Permits(FLAG_NO_EXECUTE, right) && (Permits(0, right) <==> right == Executing)
  {
    TestedBits();
  }

  /** The page at the end of `path` may be used so: every entry on the way is present and permits it. */
  predicate May(t: Tables, f: nat, path: seq<nat>, right: Right)
    requires |path| > 0
    decreases |path|
  {
    var next := Step(t, f, path[0]);
    next.Some? && Permits(At(t, f, path[0]), right) && (|path| == 1 || May(t, next.value, path[1..], right))
  }

  /** None of the tables that are there already on the way along `path` forbids it. */
  predicate Allows(t: Tables, f: nat, path: seq<nat>, right: Right)
    requires |path| > 0
    decreases |path|
  {
    var next := Step(t, f, path[0]);
    |path| == 1 || next.None? || (Permits(At(t, f, path[0]), right) && Allows(t, next.value, path[1..], right))
  }

  // ---- the bits of entries ----

  lemma {:induction false} BitOfOr(a: nat, b: nat, n: nat)
    ensures Bit(Or(a, b), n) == (Bit(a, n) || Bit(b, n))
  {
    hide Or, High;
    OrHalves(a, b);
    if n == 0 {
      HighZero(a);
      HighZero(b);
      HighZero(Or(a, b));
    } else {
      BitOfOr(a / 2, b / 2, n - 1);
      BitOfHalf(a, n);
      BitOfHalf(b, n);
      BitOfHalf(Or(a, b), n);
    }
  }

  lemma OrHalves(a: nat, b: nat)
    ensures Or(a, b) / 2 == Or(a / 2, b / 2) && (Or(a, b) % 2 == 1 <==> a % 2 == 1 || b % 2 == 1)
  {
    OrStep(a, b);
    hide Or;
  }

  lemma BitOfHalf(a: nat, n: nat)
    requires n > 0
    ensures Bit(a, n) == Bit(a / 2, n - 1)
  {
    Pow2Step(n);
    TwoStepDivision(a, 2, Pow2(n - 1));
  }

  /** The frame field has bits 12 to 51 only. */
  lemma BitsOfFrame(frame: nat, n: nat)
    requires frame < 0x100_0000_0000 && n in {0, 1, 2, 63}
    ensures !Bit(0x1000 * frame, n)
  {
    TestedBits();
    hide Pow2;
    assert 0x1000 * frame == 2 * (0x800 * frame) == 4 * (0x400 * frame);
    if n == 63 {
      DivUnique(0x1000 * frame, Pow2(63), 0, 0x1000 * frame);
    } else if n == 2 {
      DivUnique(0x1000 * frame, 4, 0x400 * frame, 0);
    }
  }

  lemma TestedBits()
    ensures Pow2(0) == 1 && Pow2(1) == 2 && Pow2(2) == 4 && Pow2(63) == 0x8000_0000_0000_0000
  {
    Pow2Of64();
    Pow2Step(64);
  }

  lemma SmallBits()
    ensures Bit(1, 0) && !Bit(1, 1) && !Bit(1, 2) && !Bit(1, 63)
    ensures !Bit(2, 0) && Bit(2, 1) && !Bit(2, 2) && !Bit(2, 63)
    ensures !Bit(4, 0) && !Bit(4, 1) && Bit(4, 2) && !Bit(4, 63)
    ensures forall n :: n in {0, 1, 2, 63} ==> !Bit(0, n)
  {
    TestedBits();
  }

  /** A mapping's own entry permits exactly what its flags do. */
  lemma LeafPermits(phys: nat, flags: nat, right: Right)
    ensures Permits(LeafEntry(phys, flags), right) == Permits(flags, right)
  {
    hide Or, Bit;
    var n := match right case Writing => 1 case UserMode => 2 case Executing => 63;
    var a := 0x1000 * FrameOf(phys);
    BitOfOr(Or(a, flags), FLAG_PRESENT, n);
    BitOfOr(a, flags, n);
    BitsOfFrame(FrameOf(phys), n);
    SmallBits();
  }

  /** A fresh table's entry permits writing and executing, and use by processes exactly when the mapping does. */
  lemma TablePermits(frame: nat, flags: nat, right: Right)
    requires frame < 0x100_0000_0000
    ensures Permits(TableEntry(frame, ExtraFlags(flags)), right) == (right != UserMode || Permits(flags, UserMode))
  {
    var n := match right case Writing => 1 case UserMode => 2 case Executing => 63;
    var a, extra := 0x1000 * frame, ExtraFlags(flags);
    SmallBits();
    ExtraIsUser(flags);
    hide Or, Bit, ExtraFlags;
    BitOfOr(Or(Or(a, FLAG_PRESENT), FLAG_WRITABLE), extra, n);
    BitOfOr(Or(a, FLAG_PRESENT), FLAG_WRITABLE, n);
    BitOfOr(a, FLAG_PRESENT, n);
    BitsOfFrame(frame, n);
  }

  lemma ExtraIsUser(flags: nat)
    ensures ExtraFlags(flags) == if Bit(flags, 2) then 4 else 0
  {
    assert Pow2(2) == 4;
  }

  // ---- adding tables ----

  /** What one call of `next_table` does to the entries. */
  ghost predicate Entered(t: Tables, u: Tables, f: nat, i: nat, flags: nat) {
    && (forall g: nat, j: nat :: (g, j) != (f, i) ==> At(u, g, j) == At(t, g, j))
    && if Step(t, f, i).Some? then At(u, f, i) == At(t, f, i)
       else exists added: nat :: Added(t, u, f, i, added, flags)
  }

  /** The absent entry now points to a frame that holds no present entries. */
  ghost predicate Added(t: Tables, u: Tables, f: nat, i: nat, added: nat, flags: nat) {
    && added < 0x100_0000_0000 && added != f && At(u, f, i) == TableEntry(added, ExtraFlags(flags))
    && forall j: nat :: Step(t, added, j).None?
  }

  lemma GrowEntered(t: Tables, f: nat, i: nat, added: nat, flags: nat)
    requires f in t && i < |t[f]| && added !in t && added < 0x100_0000_0000 && Step(t, f, i).None?
    ensures Entered(t, Write(t[added := Zero()], f, i, TableEntry(added, ExtraFlags(flags))), f, i, flags)
  {
    hide TableEntry, ExtraFlags;
    var u := Write(t[added := Zero()], f, i, TableEntry(added, ExtraFlags(flags)));
    assert Added(t, u, f, i, added, flags);
  }

  /** Adding a table takes away no right that its entry permits. */
  lemma {:induction false} EnterAllows(t: Tables, u: Tables, f: nat, i: nat, flags: nat, g: nat, path: seq<nat>,
      right: Right)
    requires Entered(t, u, f, i, flags) && |path| > 0 && (right != UserMode || Permits(flags, UserMode))
    ensures Allows(u, g, path, right) == Allows(t, g, path, right)
    decreases |path|
  {
    hide TableEntry, ExtraFlags, Permits;
    if |path| > 1 {
      if Step(t, g, path[0]).Some? {
        EnterAllows(t, u, f, i, flags, Step(t, g, path[0]).value, path[1..], right);
      } else if (g, path[0]) == (f, i) {
        var added: nat :| Added(t, u, f, i, added, flags);
        TablePermits(added, flags, right);
        TableFields(added, flags);
        assert Step(t, added, path[1]).None? && At(u, added, path[1]) == At(t, added, path[1]);
      }
    }
  }

  /** It gives no page to anyone. */
  lemma {:induction false} EnterMay(t: Tables, level: map<nat, nat>, u: Tables, f: nat, i: nat, flags: nat, g: nat,
      path: seq<nat>, right: Right)
    requires Tree(t, level) && Entered(t, u, f, i, flags) && f in level && level[f] > 1
    requires g in t && |path| == level[g]
    ensures May(u, g, path, right) == May(t, g, path, right)
    decreases |path|
  {
    hide TableEntry, ExtraFlags, Permits;
    if Step(t, g, path[0]).Some? {
      if |path| > 1 {
        DownOne(t, level, g, path[0]);
        EnterMay(t, level, u, f, i, flags, Step(t, g, path[0]).value, path[1..], right);
      }
    } else if (g, path[0]) == (f, i) {
      var added: nat :| Added(t, u, f, i, added, flags);
      TableFields(added, flags);
      assert Step(t, added, path[1]).None? && At(u, added, path[1]) == At(t, added, path[1]);
    }
  }

  // ---- writing a mapping ----

  /** A last-level entry gives what the tables above it and the entry itself permit. */
  lemma {:induction false} LeafMay(t: Tables, level: map<nat, nat>, f: nat, i: nat, e: nat, g: nat, path: seq<nat>,
      right: Right)
    requires Tree(t, level) && f in t && level[f] == 1 && i < ENTRIES && g in t && |path| == level[g]
    ensures May(Write(t, f, i, e), g, path, right)
            == if LastTable(t, g, path) == Some(f) && path[|path| - 1] == i
               then Present(e) && Permits(e, right) && Allows(t, g, path, right) else May(t, g, path, right)
    ensures Allows(Write(t, f, i, e), g, path, right) == Allows(t, g, path, right)
    decreases |path|
  {
    hide Permits, Present, FrameOf;
    if |path| > 1 && Step(t, g, path[0]).Some? {
      DownOne(t, level, g, path[0]);
      LeafMay(t, level, f, i, e, Step(t, g, path[0]).value, path[1..], right);
    }
  }

  // ---- seen from the spaces ----

  /** Nobody has gained or lost a right to any page. */
  ghost predicate SameMay(t: Tables, u: Tables, roots: set<nat>) {
    forall r: nat, q: seq<nat>, x: Right :: r in roots && |q| == 4 ==> May(u, r, q, x) == May(t, r, q, x)
  }

  /** The tables allow what they did, except that those a kernel mapping adds are not for processes. */
  ghost predicate SameAllows(t: Tables, u: Tables, roots: set<nat>, flags: nat) {
    forall r: nat, q: seq<nat>, x: Right :: r in roots && |q| == 4 && (x != UserMode || Permits(flags, UserMode)) ==>
      Allows(u, r, q, x) == Allows(t, r, q, x)
  }

  /**
   The page of `virt` may now be used, in every space that shares it with `root`, as the flags and the tables on the way
   permit, or not at all; every other page of every space as before.
   */
  ghost predicate Regranted(t: Tables, u: Tables, roots: set<nat>, root: nat, virt: nat, flags: Option<nat>) {
    forall r: nat, v: nat, x: Right :: r in roots ==>
      May(u, r, Path(v), x) == MayAfter(t, root, virt, flags, r, v, x)
  }

  predicate MayAfter(t: Tables, root: nat, virt: nat, flags: Option<nat>, r: nat, v: nat, right: Right) {
    if SamePage(v, virt) && Shares(t, r, root, Path(virt)[0])
    then flags.Some? && Permits(flags.value, right) && Allows(t, r, Path(v), right)
    else May(t, r, Path(v), right)
  }

  lemma SameReflexive(t: Tables, roots: set<nat>, flags: nat)
    ensures SameMay(t, t, roots) && SameAllows(t, t, roots, flags)
  {
    hide May, Allows, Permits;
  }

  lemma SameTransitive(t: Tables, u: Tables, v: Tables, roots: set<nat>, flags: nat)
    requires SameMay(t, u, roots) && SameMay(u, v, roots)
    requires SameAllows(t, u, roots, flags) && SameAllows(u, v, roots, flags)
    ensures SameMay(t, v, roots) && SameAllows(t, v, roots, flags)
  {
    hide May, Allows, Permits;
  }

  lemma AllowsTransitive(t: Tables, u: Tables, v: Tables, roots: set<nat>, flags: nat)
    requires SameAllows(t, u, roots, flags) && SameAllows(u, v, roots, flags)
    ensures SameAllows(t, v, roots, flags)
  {
    hide Allows, Permits;
  }

  lemma SpacesKept(t: Tables, l: map<nat, nat>, u: Tables, l': map<nat, nat>, v: Tables, l'': map<nat, nat>)
    requires Extends(t, l, u, l') && Extends(t, l, v, l'')
    ensures Roots(l') == Roots(l) == Roots(l'')
  {
    hide Walk, Step, Shares;
  }

  lemma EnterSame(t: Tables, level: map<nat, nat>, u: Tables, f: nat, i: nat, flags: nat)
    requires Tree(t, level) && Entered(t, u, f, i, flags) && f in level && level[f] > 1
    ensures SameMay(t, u, Roots(level)) && SameAllows(t, u, Roots(level), flags)
  {
    hide May, Allows, Permits, Entered;
    forall r: nat, q: seq<nat>, x: Right | r in Roots(level) && |q| == 4
      ensures May(u, r, q, x) == May(t, r, q, x)
      ensures x != UserMode || Permits(flags, UserMode) ==> Allows(u, r, q, x) == Allows(t, r, q, x)
    {
      EnterMay(t, level, u, f, i, flags, r, q, x);
      if x != UserMode || Permits(flags, UserMode) {
        EnterAllows(t, u, f, i, flags, r, q, x);
      }
    }
  }

  /** Writing the leaf of `virt` regrants its page. */
  lemma LeafRegrants(t: Tables, level: map<nat, nat>, root: nat, virt: nat, pt: nat, e: nat)
    requires Tree(t, level) && root in Roots(level)
    requires LastTable(t, root, Path(virt)) == Some(pt) && pt in t && level[pt] == 1
    ensures Regranted(t, Write(t, pt, Path(virt)[3], e), Roots(level), root, virt, if Present(e) then Some(e) else None)
    ensures forall flags :: SameAllows(t, Write(t, pt, Path(virt)[3], e), Roots(level), flags)
  {
    hide May, Allows, Permits, Present, Path, MayAfter, Write, LastTable;
    var u := Write(t, pt, Path(virt)[3], e);
    forall r: nat, q: seq<nat>, x: Right | r in Roots(level) && |q| == 4
      ensures Allows(u, r, q, x) == Allows(t, r, q, x)
    {
      assert Path(virt)[3] < ENTRIES;
      LeafMay(t, level, pt, Path(virt)[3], e, r, q, x);
    }
    forall r: nat, v: nat, x: Right | r in Roots(level) {
      LeafMayAfter(t, level, root, virt, pt, e, r, v, x);
    }
  }

  lemma LeafMayAfter(t: Tables, level: map<nat, nat>, root: nat, virt: nat, pt: nat, e: nat, r: nat, v: nat, x: Right)
    requires Tree(t, level) && root in Roots(level) && r in Roots(level)
    requires LastTable(t, root, Path(virt)) == Some(pt) && pt in t && level[pt] == 1
    ensures May(Write(t, pt, Path(virt)[3], e), r, Path(v), x)
            == MayAfter(t, root, virt, if Present(e) then Some(e) else None, r, v, x)
  {
    assert Path(virt)[3] < ENTRIES;
    hide May, Allows, Permits, Present, Path, SamePage, Shares, Write, LastTable;
    LeafMay(t, level, pt, Path(virt)[3], e, r, Path(v), x);
    SameLeaf(t, level, root, Path(virt), r, Path(v));
    PathIsPage(v, virt);
  }

  /** Tables were added, and then the mapping was written. */
  lemma MapRegrants(t: Tables, u: Tables, v: Tables, roots: set<nat>, root: nat, virt: nat, phys: nat, flags: nat)
    requires SameMay(t, u, roots) && SameAllows(t, u, roots, flags)
    requires forall r: nat, s: nat, i: nat :: r in roots && s in roots ==> Shares(u, r, s, i) == Shares(t, r, s, i)
    requires root in roots && Regranted(u, v, roots, root, virt, Some(LeafEntry(phys, flags)))
    ensures Regranted(t, v, roots, root, virt, Some(flags))
  {
    hide May, Allows, Permits, Path, SamePage, Shares, LeafEntry, MayAfter;
    forall r: nat, w: nat, x: Right | r in roots
      ensures May(v, r, Path(w), x) == MayAfter(t, root, virt, Some(flags), r, w, x)
    {
      MapMayAfter(t, u, roots, root, virt, phys, flags, r, w, x);
    }
  }

  lemma MapMayAfter(t: Tables, u: Tables, roots: set<nat>, root: nat, virt: nat, phys: nat, flags: nat, r: nat, v: nat,
      x: Right)
    requires SameMay(t, u, roots) && SameAllows(t, u, roots, flags) && r in roots && root in roots
    requires forall r: nat, s: nat, i: nat :: r in roots && s in roots ==> Shares(u, r, s, i) == Shares(t, r, s, i)
    ensures MayAfter(u, root, virt, Some(LeafEntry(phys, flags)), r, v, x)
            == MayAfter(t, root, virt, Some(flags), r, v, x)
  {
    hide May, Allows, Permits, Path, SamePage, Shares, LeafEntry;
    LeafPermits(phys, flags, x);
  }

  /** A page that leads nowhere may not be used, so nothing has to change when it is removed. */
  lemma {:induction false} AbsentMayNot(t: Tables, f: nat, path: seq<nat>, right: Right)
    requires |path| > 0 && Walk(t, f, path).None?
    ensures !May(t, f, path, right)
    decreases |path|
  {
    hide Step, Permits;
    if |path| > 1 && Step(t, f, path[0]).Some? {
      AbsentMayNot(t, Step(t, f, path[0]).value, path[1..], right);
    }
  }

  lemma AlreadyForbidden(t: Tables, level: map<nat, nat>, root: nat, virt: nat)
    requires Tree(t, level) && root in Roots(level) && Walk(t, root, Path(virt)).None?
    ensures Regranted(t, t, Roots(level), root, virt, None)
  {
    hide May, Permits, Path, Walk;
    forall r: nat, v: nat, x: Right | SamePage(v, virt) && Shares(t, r, root, Path(virt)[0])
      ensures !May(t, r, Path(v), x)
    {
      PathIsPage(v, virt);
      SharedWalk(t, r, root, Path(virt));
      AbsentMayNot(t, r, Path(v), x);
    }
  }

  lemma SharedWalk(t: Tables, r: nat, s: nat, path: seq<nat>)
    requires |path| > 1 && Shares(t, r, s, path[0])
    ensures Walk(t, r, path) == Walk(t, s, path)
  {
  }

  // ---- new spaces ----

  /** Nobody's rights change, and the new space has those of `src` in the higher half and none below. */
  ghost predicate ForkedRights(t: Tables, level: map<nat, nat>, src: nat, u: Tables, root: nat) {
    && (forall r: nat, v: nat, x: Right :: r in Roots(level) ==> May(u, r, Path(v), x) == May(t, r, Path(v), x))
    && forall v: nat, x: Right ::
         && May(u, root, Path(v), x) == (Path(v)[0] >= HIGHER_HALF_START && May(t, src, Path(v), x))
         && Allows(u, root, Path(v), x) == (Path(v)[0] < HIGHER_HALF_START || Allows(t, src, Path(v), x))
  }

  lemma {:induction false} SameBelow(t: Tables, level: map<nat, nat>, u: Tables, g: nat, path: seq<nat>, x: Right)
    requires Tree(t, level) && g in t && |path| == level[g]
    requires forall f: nat, i: nat :: f in level ==> At(u, f, i) == At(t, f, i)
    ensures May(u, g, path, x) == May(t, g, path, x) && Allows(u, g, path, x) == Allows(t, g, path, x)
    decreases |path|
  {
    hide Permits, At, Target;
    if |path| > 1 && Step(t, g, path[0]).Some? {
      DownOne(t, level, g, path[0]);
      SameBelow(t, level, u, Step(t, g, path[0]).value, path[1..], x);
    }
  }

  lemma CopyRights(t: Tables, level: map<nat, nat>, src: nat, u: Tables, level': map<nat, nat>, root: nat)
    requires Tree(t, level) && Copied(t, level, src, u, level', root, ENTRIES)
    ensures ForkedRights(t, level, src, u, root)
  {
    hide May, Allows, Permits, Path, Step, Walk, At;
    forall r: nat, v: nat, x: Right | r in Roots(level) ensures May(u, r, Path(v), x) == May(t, r, Path(v), x) {
      SameBelow(t, level, u, r, Path(v), x);
    }
    forall v: nat, x: Right
      ensures May(u, root, Path(v), x) == (Path(v)[0] >= HIGHER_HALF_START && May(t, src, Path(v), x))
      ensures Allows(u, root, Path(v), x) == (Path(v)[0] < HIGHER_HALF_START || Allows(t, src, Path(v), x))
    {
      CopyRight(t, level, src, u, level', root, Path(v), x);
    }
  }

  lemma CopyRight(t: Tables, level: map<nat, nat>, src: nat, u: Tables, level': map<nat, nat>, root: nat,
      path: seq<nat>, x: Right)
    requires Tree(t, level) && Copied(t, level, src, u, level', root, ENTRIES) && |path| == 4 && path[0] < ENTRIES
    ensures May(u, root, path, x) == (path[0] >= HIGHER_HALF_START && May(t, src, path, x))
    ensures Allows(u, root, path, x) == (path[0] < HIGHER_HALF_START || Allows(t, src, path, x))
  {
    hide Permits, At, Target, Walk;
    if path[0] >= HIGHER_HALF_START && Step(t, src, path[0]).Some? {
      DownOne(t, level, src, path[0]);
      SameBelow(t, level, u, Step(t, src, path[0]).value, path[1..], x);
    }
  }

  // ---- what flags alone do not give ----

  /** A table that a mapping has added lets processes through exactly if that mapping was for them. */
  lemma EnteredFor(t: Tables, u: Tables, f: nat, i: nat, flags: nat)
    requires Step(t, f, i).None? && Entered(t, u, f, i, flags)
    ensures Permits(At(u, f, i), UserMode) == Permits(flags, UserMode)
  {
    hide Permits, TableEntry, ExtraFlags;
    var added: nat :| Added(t, u, f, i, added, flags);
    TablePermits(added, flags, UserMode);
  }

  lemma EnterKeeps(t: Tables, u: Tables, f: nat, i: nat, flags: nat, g: nat, j: nat)
    requires Entered(t, u, f, i, flags) && (g, j) != (f, i)
    ensures At(u, g, j) == At(t, g, j)
  {
  }

  /** Below a table that does not let processes through, no mapping is for them, whatever its flags. */
  lemma Barred(t: Tables, f: nat, path: seq<nat>)
    requires |path| > 1 && Step(t, f, path[0]).Some? && !Permits(At(t, f, path[0]), UserMode)
    ensures !Allows(t, f, path, UserMode)
  {
  }
}
