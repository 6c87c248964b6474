/** Any run of address-space operations, seen as a flat page map: kernel/src/memory/paging.rs, lines 90-216. */
module AddressSpaces {
  import opened Common
  import opened PageTree
  import opened Paging

  /** Spaces are numbered in the order they were made; number 0 is the bootloader's. */
  datatype Op =
    | New
    | Switch(space: nat)
    | Map(space: nat, virt: nat, phys: nat, flags: nat)
    | Unmap(space: nat, virt: nat)

  function Count(ops: seq<Op>): (n: nat)
    ensures n > 0
  {
    if ops == [] then 1 else Count(ops[..|ops| - 1]) + if ops[|ops| - 1].New? then 1 else 0
  }

  /** Operations on spaces that exist. */
  predicate Legitimate(ops: seq<Op>) {
    ops != [] ==>
      var op := ops[|ops| - 1];
      Legitimate(ops[..|ops| - 1]) && (!op.New? ==> op.space < Count(ops[..|ops| - 1]))
  }

  /** The number of the active space. */
  function Active(ops: seq<Op>): nat {
    if ops == [] then 0
    else if ops[|ops| - 1].Switch? then ops[|ops| - 1].space
    else Active(ops[..|ops| - 1])
  }

  predicate Higher(i: nat) { HIGHER_HALF_START <= i < ENTRIES }

  /**
   Which operation made the table below higher-half entry `i` of space `k`: 0 for the bootloader's, None if there is
   none yet. A new space takes over what the active one has, and a mapping below an absent entry makes a table of its
   own.
   */
  function Origin(boot: Tables, root: nat, ops: seq<Op>, k: nat, i: nat): (o: Option<nat>)
    ensures o.Some? ==> o.value <= |ops|
  {
    if ops == [] then
      if k == 0 && Step(boot, root, i).Some? then Some(0) else None
    else
      var most, op := ops[..|ops| - 1], ops[|ops| - 1];
      if op.New? && k == Count(most) then Origin(boot, root, most, Active(most), i)
      else
        var before := Origin(boot, root, most, k, i);
        if op.Map? && op.space == k && Path(op.virt)[0] == i && before.None? then Some(|ops|) else before
  }

  /** Whether spaces `j` and `k` have what lies below entry `i` in common. */
  predicate Joined(boot: Tables, root: nat, ops: seq<Op>, j: nat, k: nat, i: nat) {
    || j == k
    || (i >= HIGHER_HALF_START && Origin(boot, root, ops, j, i).Some?
        && Origin(boot, root, ops, j, i) == Origin(boot, root, ops, k, i))
  }

  /**
   What space `k` sees at `v` after `ops`, read off the operations alone: the last of them that concerned the page, in
   this space or in one joined with it there. A new space starts with the higher half of the active one.
   */
  function View(boot: Tables, root: nat, ops: seq<Op>, k: nat, v: nat): Option<nat> {
    if ops == [] then
      if k == 0 then Translate(boot, root, v) else None
    else
      var most, op := ops[..|ops| - 1], ops[|ops| - 1];
      if op.New? && k == Count(most) then
        if Lower(v) then None else View(boot, root, most, Active(most), v)
      else if (op.Map? || op.Unmap?)
              && SamePage(v, op.virt) && Joined(boot, root, most, k, op.space, Path(op.virt)[0]) then
        if op.Map? then Some(0x1000 * FrameOf(LeafEntry(op.phys, op.flags)) + v % 0x1000) else None
      else
        View(boot, root, most, k, v)
  }

  predicate Lower(virt: nat) { Path(virt)[0] < HIGHER_HALF_START }

  /** The tables share below the PML4s what `Joined` says, and show every space what `View` says. */
  ghost predicate Agrees(boot: Tables, root: nat, t: Tables, roots: set<nat>, spaces: seq<nat>, ops: seq<Op>) {
    && Roster(root, roots, spaces, Count(ops))
    && Tops(boot, root, t, spaces, ops)
    && (forall k: nat, v: nat :: k < |spaces| ==> Translate(t, spaces[k], v) == View(boot, root, ops, k, v))
  }

  ghost predicate Roster(root: nat, roots: set<nat>, spaces: seq<nat>, count: nat) {
    && |spaces| == count > 0 && spaces[0] == root
    && (forall k :: 0 <= k < |spaces| ==> spaces[k] in roots)
    && (forall j, k :: 0 <= j < k < |spaces| ==> spaces[j] != spaces[k])
  }

  ghost predicate Tops(boot: Tables, root: nat, t: Tables, spaces: seq<nat>, ops: seq<Op>) {
    && (forall k: nat, i: nat :: k < |spaces| && Higher(i) ==>
          (Step(t, spaces[k], i).Some? <==> Origin(boot, root, ops, k, i).Some?))
    && (forall j: nat, k: nat, i: nat :: j < |spaces| && k < |spaces| && Higher(i) ==>
          (Shares(t, spaces[j], spaces[k], i) <==> Joined(boot, root, ops, j, k, i)))
  }

  // ---- one operation at a time ----

  /** A mapping or unmapping joins and parts no spaces. */
  lemma JoinedKept(boot: Tables, root: nat, ops: seq<Op>, op: Op, j: nat, k: nat, i: nat)
    requires op.Map? || op.Unmap? || op.Switch?
    ensures Joined(boot, root, ops + [op], j, k, i) <==> Joined(boot, root, ops, j, k, i)
    ensures Origin(boot, root, ops + [op], k, i).Some?
            <==> Origin(boot, root, ops, k, i).Some? || (op.Map? && op.space == k && Path(op.virt)[0] == i)
  {
    assert (ops + [op])[..|ops|] == ops;
    hide Path, Step;
  }

  lemma TopsKept(boot: Tables, root: nat, t: Tables, u: Tables, roots: set<nat>, spaces: seq<nat>, ops: seq<Op>, op: Op)
    requires Roster(root, roots, spaces, Count(ops)) && Tops(boot, root, t, spaces, ops) && TopKept(t, u, roots)
    requires op.Map? || op.Unmap?
    requires op.Map? ==> op.space < |spaces| && OnlyEntry(t, u, roots, spaces[op.space], Path(op.virt)[0])
    requires op.Map? ==> Step(u, spaces[op.space], Path(op.virt)[0]).Some?
    requires op.Unmap? ==> TopSame(t, u, roots)
    ensures Tops(boot, root, u, spaces, ops + [op])
  {
    hide Origin, Joined, Shares, Step, Path;
    forall j: nat, k: nat, i: nat | j < |spaces| && k < |spaces| && Higher(i)
      ensures Shares(u, spaces[j], spaces[k], i) <==> Joined(boot, root, ops + [op], j, k, i)
    {
      JoinedKept(boot, root, ops, op, j, k, i);
    }
    forall k: nat, i: nat | k < |spaces| && Higher(i)
      ensures Step(u, spaces[k], i).Some? <==> Origin(boot, root, ops + [op], k, i).Some?
    {
      TopKeptAt(boot, root, t, u, roots, spaces, ops, op, k, i);
    }
  }

  lemma TopKeptAt(boot: Tables, root: nat, t: Tables, u: Tables, roots: set<nat>, spaces: seq<nat>, ops: seq<Op>,
      op: Op, k: nat, i: nat)
    requires Roster(root, roots, spaces, Count(ops)) && Tops(boot, root, t, spaces, ops)
    requires k < |spaces| && Higher(i) && (op.Map? || op.Unmap?)
    requires op.Map? ==> op.space < |spaces| && OnlyEntry(t, u, roots, spaces[op.space], Path(op.virt)[0])
    requires op.Map? ==> Step(u, spaces[op.space], Path(op.virt)[0]).Some?
    requires op.Unmap? ==> TopSame(t, u, roots)
    ensures Step(u, spaces[k], i).Some? <==> Origin(boot, root, ops + [op], k, i).Some?
  {
    hide Origin, Joined, Shares, Step, Path;
    JoinedKept(boot, root, ops, op, k, k, i);
    if op.Map? && k < op.space { assert spaces[k] != spaces[op.space]; }
    if op.Map? && k > op.space { assert spaces[op.space] != spaces[k]; }
  }

  /** Which spaces a remapping in space `s` concerns. */
  lemma Concerned(boot: Tables, root: nat, t: Tables, roots: set<nat>, spaces: seq<nat>, ops: seq<Op>, s: nat,
      virt: nat, k: nat)
    requires Roster(root, roots, spaces, Count(ops)) && Tops(boot, root, t, spaces, ops) && s < |spaces| && k < |spaces|
    ensures Shares(t, spaces[k], spaces[s], Path(virt)[0]) <==> Joined(boot, root, ops, k, s, Path(virt)[0])
  {
    hide Origin, Step, Path;
    LegalPath(virt);
    if k < s { assert spaces[k] != spaces[s]; }
    if s < k { assert spaces[s] != spaces[k]; }
  }

  lemma RemapView(boot: Tables, root: nat, ops: seq<Op>, op: Op, k: nat, v: nat)
    requires op.Map? || op.Unmap?
    ensures View(boot, root, ops + [op], k, v)
            == if SamePage(v, op.virt) && Joined(boot, root, ops, k, op.space, Path(op.virt)[0])
               then (if op.Map? then Some(0x1000 * FrameOf(LeafEntry(op.phys, op.flags)) + v % 0x1000) else None)
               else View(boot, root, ops, k, v)
  {
    assert (ops + [op])[..|ops|] == ops;
    hide Joined, SamePage, Path, FrameOf, LeafEntry, Translate, Lower;
  }

  lemma AfterRemap(boot: Tables, root: nat, t: Tables, u: Tables, roots: set<nat>, spaces: seq<nat>, ops: seq<Op>,
      op: Op)
    requires Agrees(boot, root, t, roots, spaces, ops) && (op.Map? || op.Unmap?) && op.space < |spaces|
    requires TopKept(t, u, roots)
    requires op.Map? ==> OnlyEntry(t, u, roots, spaces[op.space], Path(op.virt)[0])
    requires op.Map? ==> Step(u, spaces[op.space], Path(op.virt)[0]).Some?
    requires op.Unmap? ==> TopSame(t, u, roots)
    requires Remapped(t, u, roots, spaces[op.space], op.virt,
                      if op.Map? then Some(FrameOf(LeafEntry(op.phys, op.flags))) else None)
    ensures Agrees(boot, root, u, roots, spaces, ops + [op])
  {
    hide Tops, View, Origin, Joined, Shares, Step, Path, Translate, FrameOf, LeafEntry, SamePage, TopKept, TopSame;
    hide OnlyEntry;
    TopsKept(boot, root, t, u, roots, spaces, ops, op);
    SameCount(ops, op);
    forall k: nat, v: nat | k < |spaces| ensures Translate(u, spaces[k], v) == View(boot, root, ops + [op], k, v) {
      Concerned(boot, root, t, roots, spaces, ops, op.space, op.virt, k);
      RemapView(boot, root, ops, op, k, v);
    }
  }

  lemma SameCount(ops: seq<Op>, op: Op)
    ensures Count(ops + [op]) == Count(ops) + if op.New? then 1 else 0
    ensures Active(ops + [op]) == if op.Switch? then op.space else Active(ops)
    ensures Legitimate(ops + [op]) <==> Legitimate(ops) && (!op.New? ==> op.space < Count(ops))
  {
    assert (ops + [op])[..|ops|] == ops;
  }

  lemma NewOrigin(boot: Tables, root: nat, ops: seq<Op>, k: nat, i: nat)
    ensures Origin(boot, root, ops + [New], k, i)
            == if k == Count(ops) then Origin(boot, root, ops, Active(ops), i) else Origin(boot, root, ops, k, i)
  {
    assert (ops + [New])[..|ops|] == ops;
    hide Path, Step;
  }

  lemma NewView(boot: Tables, root: nat, ops: seq<Op>, k: nat, v: nat)
    ensures View(boot, root, ops + [New], k, v)
            == if k != Count(ops) then View(boot, root, ops, k, v)
               else if Lower(v) then None else View(boot, root, ops, Active(ops), v)
  {
    assert (ops + [New])[..|ops|] == ops;
    hide Path, Lower, Translate;
  }

  lemma TopsNew(boot: Tables, root: nat, t: Tables, level: map<nat, nat>, u: Tables, level': map<nat, nat>,
      spaces: seq<nat>, ops: seq<Op>, added: nat)
    requires Roster(root, Roots(level), spaces, Count(ops)) && Tops(boot, root, t, spaces, ops)
    requires Active(ops) < |spaces| && Forked(t, level, spaces[Active(ops)], u, level', added)
    ensures Tops(boot, root, u, spaces + [added], ops + [New])
  {
    hide Origin, Step, Path, Translate, Count, Active, Roots;
    var c, n := Active(ops), |spaces|;
    var more := spaces + [added];
    forall k: nat, i: nat | k < |more| && Higher(i)
      ensures Step(u, more[k], i).Some? <==> Origin(boot, root, ops + [New], k, i).Some?
    {
      NewOrigin(boot, root, ops, k, i);
      assert more[k] == if k < n then spaces[k] else added;
    }
    forall j: nat, k: nat, i: nat | j < |more| && k < |more| && Higher(i)
      ensures Shares(u, more[j], more[k], i) <==> Joined(boot, root, ops + [New], j, k, i)
    {
      NewOrigin(boot, root, ops, j, i);
      NewOrigin(boot, root, ops, k, i);
      var j', k' := if j == n then c else j, if k == n then c else k;
      assert Shares(t, spaces[j'], spaces[k'], i) <==> Joined(boot, root, ops, j', k', i);
      assert Step(u, more[j], i) == Step(t, spaces[j'], i) && Step(u, more[k], i) == Step(t, spaces[k'], i);
      assert Step(t, spaces[j'], i).Some? <==> Origin(boot, root, ops, j', i).Some?;
      assert j != k ==> more[j] != more[k];
      assert j' != k' ==> spaces[j'] != spaces[k'];
    }
  }

  lemma AfterNew(boot: Tables, root: nat, t: Tables, level: map<nat, nat>, u: Tables, level': map<nat, nat>,
      spaces: seq<nat>, ops: seq<Op>, added: nat)
    requires Agrees(boot, root, t, Roots(level), spaces, ops)
    requires Active(ops) < |spaces| && Forked(t, level, spaces[Active(ops)], u, level', added)
    ensures Agrees(boot, root, u, Roots(level'), spaces + [added], ops + [New])
  {
    hide Tops, View, Origin, Step, Path, Translate, Shares, TopKept, TopSame;
    TopsNew(boot, root, t, level, u, level', spaces, ops, added);
    SameCount(ops, New);
    forall k: nat, v: nat | k <= |spaces|
      ensures Translate(u, (spaces + [added])[k], v) == View(boot, root, ops + [New], k, v)
    {
      NewView(boot, root, ops, k, v);
    }
  }

  lemma AfterSwitch(boot: Tables, root: nat, t: Tables, roots: set<nat>, spaces: seq<nat>, ops: seq<Op>, s: nat)
    requires Agrees(boot, root, t, roots, spaces, ops)
    ensures Agrees(boot, root, t, roots, spaces, ops + [Switch(s)])
  {
    hide View, Origin, Joined, Step, Path, Translate, Shares;
    var op := Switch(s);
    SameCount(ops, op);
    forall j: nat, k: nat, i: nat { JoinedKept(boot, root, ops, op, j, k, i); }
    forall k: nat, v: nat { SwitchView(boot, root, ops, s, k, v); }
  }

  lemma SwitchView(boot: Tables, root: nat, ops: seq<Op>, s: nat, k: nat, v: nat)
    ensures View(boot, root, ops + [Switch(s)], k, v) == View(boot, root, ops, k, v)
  {
    assert (ops + [Switch(s)])[..|ops|] == ops;
    hide Path, Lower, Translate;
  }

  lemma {:induction false} LegitimatePrefix(ops: seq<Op>, k: nat)
    requires Legitimate(ops) && k < |ops|
    ensures Legitimate(ops[..k]) && (!ops[k].New? ==> ops[k].space < Count(ops[..k]))
    decreases |ops|
  {
    var most := ops[..|ops| - 1];
    if k < |most| {
      LegitimatePrefix(most, k);
      assert most[..k] == ops[..k];
    }
  }

  lemma InRoots(boot: Tables, root: nat, t: Tables, roots: set<nat>, spaces: seq<nat>, ops: seq<Op>, k: nat)
    requires Agrees(boot, root, t, roots, spaces, ops)
    ensures |spaces| == Count(ops) && (k < |spaces| ==> spaces[k] in roots)
  {
  }

  lemma Start(boot: Tables, root: nat, roots: set<nat>)
    requires root in roots
    ensures Agrees(boot, root, boot, roots, [root], []) && Active([]) == 0
  {
    hide Step, Translate, Path, Lower;
  }

  /** Carries out one operation; not `ok` is the panic for want of memory. `c` numbers the active space. */
  method RunOne(m: Memory, spaces: seq<nat>, op: Op, c: nat, ghost boot: Tables, ghost root: nat, ghost ops: seq<Op>)
    returns (spaces': seq<nat>, c': nat, ok: bool)
    requires m.Valid() && c < |spaces| && spaces[c] == m.cr3 && c == Active(ops)
    requires Agrees(boot, root, m.tables, m.Spaces(), spaces, ops) && (!op.New? ==> op.space < Count(ops))
    modifies m, m.pmm, m.pmm.bitmap
    ensures m.Valid() && c' < |spaces'| && spaces'[c'] == m.cr3 && c' == Active(ops + [op])
    ensures ok ==> Agrees(boot, root, m.tables, m.Spaces(), spaces', ops + [op])
    ensures !ok ==> m.pmm.free == {} && (op.New? || op.Map?)
  {
    hide Agrees, Step, Translate, Path, Lower, SamePage, FrameOf, LeafEntry, Remapped, TopKept, TopSame, OnlyEntry;
    hide Forked, Tree, Memory.Valid, Legitimate, Count, Active;
    ghost var t, l := m.tables, m.level;
    InRoots(boot, root, m.tables, m.Spaces(), spaces, ops, if op.New? then c else op.space);
    SameCount(ops, op);
    spaces', c', ok := spaces, c, true;
    if op.New? {
      var added := m.NewSpace();
      if added.None? {
        ok := false;
      } else {
        AfterNew(boot, root, t, l, m.tables, m.level, spaces, ops, added.value);
        spaces' := spaces + [added.value];
      }
    } else if op.Switch? {
      m.SwitchTo(spaces[op.space]);
      c' := op.space;
      AfterSwitch(boot, root, m.tables, m.Spaces(), spaces, ops, op.space);
    } else if op.Map? {
      ok := m.MapIn(spaces[op.space], op.virt, op.phys, op.flags);
      if ok {
        AfterRemap(boot, root, t, m.tables, m.Spaces(), spaces, ops, op);
      }
    } else {
      m.UnmapIn(spaces[op.space], op.virt);
      AfterRemap(boot, root, t, m.tables, m.Spaces(), spaces, ops, op);
    }
  }

  /**
   Any run of operations on any addresses. As long as memory lasts, every space sees at every address what `View` reads
   off the operations, and shares with the others exactly what `Joined` says.
   */
  method RunOps(m: Memory, ops: seq<Op>) returns (spaces: seq<nat>, done: nat)
    requires m.Valid() && Legitimate(ops)
    modifies m, m.pmm, m.pmm.bitmap
    ensures m.Valid() && done <= |ops|
    ensures done < |ops| ==> m.pmm.free == {} && (ops[done].New? || ops[done].Map?)
    ensures done == |ops| ==> Agrees(old(m.tables), old(m.cr3), m.tables, m.Spaces(), spaces, ops)
  {
    hide *;
    spaces := [m.cr3];
    var c: nat, ok := 0, true;
    ghost var boot, root := m.tables, m.cr3;
    m.ValidParts();
    Start(boot, root, m.Spaces());
    for i := 0 to |ops|
      invariant m.Valid() && c < |spaces| && spaces[c] == m.cr3 && c == Active(ops[..i])
      invariant Agrees(boot, root, m.tables, m.Spaces(), spaces, ops[..i])
    {
      LegitimatePrefix(ops, i);
      spaces, c, ok := RunOne(m, spaces, ops[i], c, boot, root, ops[..i]);
      if !ok {
        return spaces, i;
      }
      assert ops[..i + 1] == ops[..i] + [ops[i]];
    }
    assert ops[..|ops|] == ops;
    return spaces, |ops|;
  }

  /** Spaces that share an entry of the higher half see the same pages below it, whatever is mapped there later. */
  lemma SharedPagesAgree(t: Tables, r: nat, s: nat, v: nat)
    requires Shares(t, r, s, Path(v)[0])
    ensures Translate(t, r, v) == Translate(t, s, v)
  {
    Unroll(t, r, Path(v));
    Unroll(t, s, Path(v));
  }

  // ---- which spaces agree ----

  lemma {:induction false} ActiveExists(ops: seq<Op>)
    requires Legitimate(ops)
    ensures Active(ops) < Count(ops)
  {
    if ops != [] { ActiveExists(ops[..|ops| - 1]); }
  }

  lemma OneSpace()
    ensures Count([]) == 1
  {
  }

  lemma OnPage(v: nat, virt: nat)
    requires SamePage(v, virt)
    ensures Path(v)[0] == Path(virt)[0]
  {
    PathIsPage(v, virt);
  }

  /** Joined spaces see the same pages. */
  lemma {:induction false} JoinedSeeAlike(boot: Tables, root: nat, ops: seq<Op>, j: nat, k: nat, v: nat)
    requires Legitimate(ops) && j < Count(ops) && k < Count(ops) && Joined(boot, root, ops, j, k, Path(v)[0])
    ensures View(boot, root, ops, j, v) == View(boot, root, ops, k, v)
    decreases |ops|
  {
    hide View, Origin, SamePage, Step, Path, Count, Active, FrameOf, LeafEntry;
    OneSpace();
    if ops != [] && j != k {
      var most, op := ops[..|ops| - 1], ops[|ops| - 1];
      var i := Path(v)[0];
      assert ops == most + [op];
      SameCount(most, op);
      ActiveExists(most);
      if op.New? {
        var j', k' := if j == Count(most) then Active(most) else j, if k == Count(most) then Active(most) else k;
        NewOrigin(boot, root, most, j, i);
        NewOrigin(boot, root, most, k, i);
        NewView(boot, root, most, j, v);
        NewView(boot, root, most, k, v);
        JoinedSeeAlike(boot, root, most, j', k', v);
      } else {
        JoinedKept(boot, root, most, op, j, k, i);
        JoinedSeeAlike(boot, root, most, j, k, v);
        if op.Switch? {
          SwitchView(boot, root, most, op.space, j, v);
          SwitchView(boot, root, most, op.space, k, v);
        } else {
          RemapView(boot, root, most, op, j, v);
          RemapView(boot, root, most, op, k, v);
          if SamePage(v, op.virt) { OnPage(v, op.virt); }
        }
      }
    }
  }

  /** Joined spaces stay joined. */
  lemma {:induction false} JoinedForGood(boot: Tables, root: nat, ops: seq<Op>, more: seq<Op>, j: nat, k: nat, i: nat)
    requires Legitimate(ops + more) && j < Count(ops) && k < Count(ops) && Joined(boot, root, ops, j, k, i)
    ensures j < Count(ops + more) && k < Count(ops + more) && Joined(boot, root, ops + more, j, k, i)
    decreases |more|
  {
    hide View, Origin, Step, Path, Count, Active;
    if more == [] {
      assert ops + more == ops;
    } else {
      var most, op := more[..|more| - 1], more[|more| - 1];
      assert ops + more == (ops + most) + [op];
      SameCount(ops + most, op);
      JoinedForGood(boot, root, ops, most, j, k, i);
      if op.New? {
        NewOrigin(boot, root, ops + most, j, i);
        NewOrigin(boot, root, ops + most, k, i);
      } else {
        JoinedKept(boot, root, ops + most, op, j, k, i);
      }
    }
  }

  /** What is done to the lower half of one space no other space sees, at any address. */
  lemma LowerIsPrivate(boot: Tables, root: nat, ops: seq<Op>, op: Op, k: nat, v: nat)
    requires (op.Map? || op.Unmap?) && Lower(op.virt) && k != op.space
    ensures View(boot, root, ops + [op], k, v) == View(boot, root, ops, k, v)
  {
    hide View, Origin, SamePage, Path;
    RemapView(boot, root, ops, op, k, v);
  }

  /** Spaces `j` and `k` see the same pages below entry `i`, now and after whatever else is done. */
  ghost predicate AgreeForGood(boot: Tables, root: nat, ops: seq<Op>, j: nat, k: nat, i: nat) {
    forall more: seq<Op>, v: nat :: Legitimate(ops + more) && Path(v)[0] == i ==>
      View(boot, root, ops + more, j, v) == View(boot, root, ops + more, k, v)
  }

  /** That is so exactly if the spaces are joined there: what both copied from the same table, and nothing else. */
  lemma AgreeExactlyIfJoined(boot: Tables, root: nat, ops: seq<Op>, j: nat, k: nat, i: nat)
    requires Legitimate(ops) && j < Count(ops) && k < Count(ops) && i < ENTRIES
    ensures AgreeForGood(boot, root, ops, j, k, i) <==> Joined(boot, root, ops, j, k, i)
  {
    hide View, Origin, Step, Path, Count, Active;
    if Joined(boot, root, ops, j, k, i) {
      forall more: seq<Op>, v: nat | Legitimate(ops + more) && Path(v)[0] == i
        ensures View(boot, root, ops + more, j, v) == View(boot, root, ops + more, k, v)
      {
        JoinedForGood(boot, root, ops, more, j, k, i);
        JoinedSeeAlike(boot, root, ops + more, j, k, v);
      }
    } else {
      var op, v := Parting(boot, root, ops, j, k, i);
      assert Legitimate(ops + [op]);
    }
  }

  /** A mapping after which two spaces that are not joined disagree. */
  lemma Parting(boot: Tables, root: nat, ops: seq<Op>, j: nat, k: nat, i: nat) returns (op: Op, v: nat)
    requires Legitimate(ops) && j < Count(ops) && k < Count(ops) && i < ENTRIES && !Joined(boot, root, ops, j, k, i)
    ensures Legitimate(ops + [op]) && Path(v)[0] == i
    ensures View(boot, root, ops + [op], j, v) != View(boot, root, ops + [op], k, v)
  {
    hide View, Origin, Step, Path, Count, Active, FrameOf, LeafEntry, SamePage;
    v := 0x80_0000_0000 * i;
    FirstPage(i);
    var phys := if View(boot, root, ops, k, v) == Some(0) then 0x1000 else 0;
    op := Map(j, v, phys, 0);
    SameCount(ops, op);
    RemapView(boot, root, ops, op, j, v);
    RemapView(boot, root, ops, op, k, v);
    LeafOfFrame(phys);
  }

  lemma FirstPage(i: nat)
    requires i < ENTRIES
    ensures var v := 0x80_0000_0000 * i; Path(v)[0] == i && v % 0x1000 == 0 && SamePage(v, v)
  {
    assert 0x80_0000_0000 * i / 0x80_0000_0000 == i;
  }

  lemma LeafOfFrame(phys: nat)
    requires phys == 0 || phys == 0x1000
    ensures FrameOf(LeafEntry(phys, 0)) == phys / 0x1000
  {
    hide LeafEntry, FrameOf;
    LeafFields(phys, 0);
    SmallFrames(phys);
  }

  lemma SmallFrames(phys: nat)
    requires phys == 0 || phys == 0x1000
    ensures FrameOf(0) == 0 && FrameOf(phys) == phys / 0x1000
  {
  }

  /**
   A higher-half entry that is absent when a space is made is never shared with it: what the bootloader's space maps
   there later, the new one does not see. Had the mapping come first, it would.
   */
  lemma SharedTooLate(boot: Tables, root: nat)
    requires Step(boot, root, HIGHER_HALF_START).None?
    ensures var v := 0x80_0000_0000 * HIGHER_HALF_START;
            var late, early := [New, Map(0, v, 0x1000, 0)], [Map(0, v, 0x1000, 0), New];
            && Legitimate(late) && View(boot, root, late, 0, v) == Some(0x1000) && View(boot, root, late, 1, v) == None
            && Legitimate(early) && View(boot, root, early, 0, v) == View(boot, root, early, 1, v) == Some(0x1000)
  {
    hide Step, Path, SamePage, FrameOf, LeafEntry, Translate;
    var v := 0x80_0000_0000 * HIGHER_HALF_START;
    var op := Map(0, v, 0x1000, 0);
    FirstPage(HIGHER_HALF_START);
    LeafOfFrame(0x1000);
    NothingThere(boot, root, v);
    assert [New] + [op] == [New, op] && [op] + [New] == [op, New] && [] + [New] == [New] && [] + [op] == [op];
    SameCount([], New);
    SameCount([New], op);
    SameCount([], op);
    SameCount([op], New);
    RemapView(boot, root, [New], op, 0, v);
    RemapView(boot, root, [New], op, 1, v);
    NewView(boot, root, [], 1, v);
    NewOrigin(boot, root, [], 0, HIGHER_HALF_START);
    NewOrigin(boot, root, [], 1, HIGHER_HALF_START);
    RemapView(boot, root, [], op, 0, v);
    NewView(boot, root, [op], 0, v);
    NewView(boot, root, [op], 1, v);
  }

  lemma NothingThere(t: Tables, root: nat, v: nat)
    requires Step(t, root, Path(v)[0]).None?
    ensures Translate(t, root, v) == None
  {
    Unroll(t, root, Path(v));
  }
}
