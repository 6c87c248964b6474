/** The first-fit free-list allocator of kernel/src/memory/heap.rs. */
module Heap {
  import opened Common

  const HEAP_START: nat := 0xffff_ffff_9000_0000
  const HEAP_SIZE: nat := 0x200_0000
  const HEAP_END: nat := HEAP_START + HEAP_SIZE

  /** The size and alignment of a free node. */
  const NODE_SIZE: nat := 16
  const NODE_ALIGN: nat := 8

  /** From this alignment on, rounding a heap address up overflows. */
  const TOO_ALIGNED: nat := 0x8000_0000

  // ---- rounding ----

  ghost predicate IsPow2(a: nat) { exists n: nat :: n < 64 && a == Pow2(n) }

  function RoundUp(a: nat, align: nat): nat
    requires align > 0
  {
    (a + align - 1) / align * align
  }

  /** `align_up`, in 64-bit wrapping arithmetic; masking with `!(align - 1)` drops the remainder by a power of two. */
  function AlignUp(addr: nat, align: nat): nat
    requires align > 0
  {
    var s := (addr + align - 1) % TWO_64;
    s - s % align
  }

  lemma Rounded(a: nat, align: nat)
    requires align > 0
    ensures a <= RoundUp(a, align) < a + align && RoundUp(a, align) % align == 0
    ensures (a + align - 1) - (a + align - 1) % align == RoundUp(a, align)
  {
    var s := a + align - 1;
    assert s == s / align * align + s % align;
    DivUnique(RoundUp(a, align), align, s / align, 0);
  }

  lemma Pow2Cases(align: nat)
    requires IsPow2(align)
    ensures align < TOO_ALIGNED ==> align <= 0x4000_0000
    ensures align >= 8 ==> align % 8 == 0
    ensures 1 <= align <= 0x8000_0000_0000_0000
  {
    var n: nat :| n < 64 && align == Pow2(n);
    Pow2Values();
    hide Pow2;
    if n <= 30 { Pow2Mono(n, 30); } else { Pow2Mono(31, n); }
    if n >= 3 { Pow2Add(3, n - 3); DivUnique(align, 8, Pow2(n - 3), 0); } else { Pow2Mono(n, 2); }
    Pow2Mono(n, 63);
    Pow2Mono(0, n);
  }

  lemma Pow2Values()
    ensures Pow2(0) == 1 && Pow2(1) == 2 && Pow2(2) == 4 && Pow2(3) == 8
    ensures Pow2(30) == 0x4000_0000 && Pow2(31) == 0x8000_0000 && Pow2(63) == 0x8000_0000_0000_0000
  {
    assert Pow2(1) == 2 && Pow2(2) == 4 && Pow2(3) == 8;
    Pow2Of64();
    Pow2Of24();
    hide Pow2;
    Pow2Add(3, 3);
    Pow2Add(24, 6);
    Pow2Add(30, 1);
    Pow2Add(32, 31);
  }

  lemma AlignUpRounds(addr: nat, align: nat)
    requires IsPow2(align) && align < TOO_ALIGNED && addr < HEAP_END
    ensures AlignUp(addr, align) == RoundUp(addr, align) < TWO_64
  {
    Pow2Cases(align);
    Rounded(addr, align);
    DivUnique(addr + align - 1, TWO_64, 0, addr + align - 1);
  }

  /** Rounding up to such an alignment wraps around to address zero. */
  lemma AlignUpWraps(addr: nat, align: nat)
    requires IsPow2(align) && align >= TOO_ALIGNED && HEAP_START <= addr < HEAP_END
    ensures AlignUp(addr, align) == 0
  {
    Pow2Cases(align);
    var s := addr + align - 1;
    DivUnique(s, TWO_64, 1, s - TWO_64);
    DivUnique(s - TWO_64, align, 0, s - TWO_64);
  }

  // ---- fitting a block into a region ----

  /** `region_fits` */
  function RegionFits(addr: nat, size: nat, regionSize: nat, align: nat): Option<nat>
    requires align > 0
  {
    var start := AlignUp(addr, align);
    var end := start + size;
    if end >= TWO_64 || end > addr + regionSize then None
    else
      var excess := addr + regionSize - end;
      if excess != 0 && excess < NODE_SIZE then None else Some(start)
  }

  /** The lowest aligned placement leaves either nothing or room for a node. */
  predicate Room(addr: nat, size: nat, regionSize: nat, align: nat)
    requires align > 0
  {
    var end := RoundUp(addr, align) + size;
    end == addr + regionSize || end + NODE_SIZE <= addr + regionSize
  }

  lemma RoomMeans(addr: nat, size: nat, regionSize: nat, align: nat)
    requires align > 0 && Room(addr, size, regionSize, align)
    ensures var end := RoundUp(addr, align) + size; end == addr + regionSize || end + NODE_SIZE <= addr + regionSize
  {
  }

  predicate InHeap(addr: nat, size: nat) { HEAP_START <= addr && addr + size <= HEAP_END && size > 0 }

  /** A placement handed out for this region lies in it and is aligned. */
  ghost predicate SoundFor(addr: nat, regionSize: nat, align: nat)
    requires align > 0
  {
    forall size: nat :: RegionFits(addr, size, regionSize, align).Some? ==>
      var start := RegionFits(addr, size, regionSize, align).value;
      addr <= start && start + size <= addr + regionSize && start % align == 0
  }

  lemma FitsIsRoom(addr: nat, size: nat, regionSize: nat, align: nat)
    requires IsPow2(align) && align < TOO_ALIGNED && InHeap(addr, regionSize)
    ensures RegionFits(addr, size, regionSize, align)
            == if Room(addr, size, regionSize, align) then Some(RoundUp(addr, align)) else None
    ensures addr <= RoundUp(addr, align) && RoundUp(addr, align) % align == 0
  {
    AlignUpRounds(addr, align);
    Rounded(addr, align);
    hide RoundUp, AlignUp;
  }

  /**
   The alignments `region_fits` can be trusted with are exactly those below 2^31: beyond, it hands out address zero.
   */
  lemma SoundExactlyBelow(addr: nat, regionSize: nat, align: nat)
    requires IsPow2(align) && InHeap(addr, regionSize)
    ensures SoundFor(addr, regionSize, align) <==> align < TOO_ALIGNED
    ensures align >= TOO_ALIGNED ==> RegionFits(addr, 16, regionSize, align) == Some(0)
  {
    Pow2Cases(align);
    if align < TOO_ALIGNED {
      forall size: nat { FitsIsRoom(addr, size, regionSize, align); }
    } else {
      AlignUpWraps(addr, align);
      hide AlignUp;
      assert RegionFits(addr, 16, regionSize, align) == Some(0);
    }
  }

  // ---- layouts ----

  /** `size_align`: the size and alignment actually used. None is the panic on a layout that overflows when padded. */
  function SizeAlign(size: nat, align: nat): Option<(nat, nat)>
    requires align > 0
  {
    var a := if align < NODE_ALIGN then NODE_ALIGN else align;
    var padded := RoundUp(size, a);
    if padded >= 0x8000_0000_0000_0000 then None
    else Some((if padded < NODE_SIZE then NODE_SIZE else padded, a))
  }

  lemma SizeAlignFits(size: nat, align: nat)
    requires IsPow2(align) && SizeAlign(size, align).Some?
    ensures var (s, a) := SizeAlign(size, align).value;
            && size <= s && NODE_SIZE <= s && s % NODE_ALIGN == 0
            && align <= a && NODE_ALIGN <= a && (align < TOO_ALIGNED ==> a < TOO_ALIGNED) && IsPow2(a) && a % align == 0
              && a % NODE_ALIGN == 0
  {
    var a := if align < NODE_ALIGN then NODE_ALIGN else align;
    Pow2Values();
    hide Pow2, RoundUp;
    Pow2Cases(align);
    Rounded(size, a);
    if align < NODE_ALIGN {
      SmallPow2(align);
      assert IsPow2(8);
    } else {
      DivUnique(a, a, 1, 0);
    }
    MultipleOfMultiple(RoundUp(size, a), a, NODE_ALIGN);
  }

  /**
   Nothing more than needed: a layout panics exactly when padding it to its alignment passes 2^63, and otherwise gets
   the least multiple of the alignment that holds it, or a node. Layouts of up to 16 bytes, 8 aligned, get 16.
   */
  lemma SizeAlignExact(size: nat, align: nat)
    requires IsPow2(align)
    ensures var a := if align < 8 then 8 else align;
            && (SizeAlign(size, align).None? <==> size > 0x8000_0000_0000_0000 - a)
            && (SizeAlign(size, align).Some? ==>
                  && SizeAlign(size, align).value.1 == a
                  && var s := SizeAlign(size, align).value.0;
                     s == 16 || (size <= s < size + a && s % a == 0))
            && (size <= 16 && align <= 8 ==> SizeAlign(size, align) == Some((16, 8)))
  {
    var a := if align < 8 then 8 else align;
    DividesTop(align);
    hide RoundUp, IsPow2;
    Rounded(size, a);
    AtMostTop(RoundUp(size, a), size, a);
    if size <= 16 && align <= 8 {
      SmallLayout(RoundUp(size, 8), size);
    }
  }

  /** Multiples of a power of two on either side of 2^63. */
  lemma AtMostTop(padded: nat, size: nat, a: nat)
    requires a > 0 && padded % a == 0 && size <= padded < size + a && 0x8000_0000_0000_0000 % a == 0
    ensures padded < 0x8000_0000_0000_0000 <==> size <= 0x8000_0000_0000_0000 - a
  {
    var k, t := padded / a, 0x8000_0000_0000_0000 / a;
    assert padded == k * a && 0x8000_0000_0000_0000 == t * a;
    if k < t {
      MulMono(k + 1, t, a);
      MulDistrib(k, 1, a);
    } else {
      MulMono(t, k, a);
    }
  }

  lemma DividesTop(align: nat)
    requires IsPow2(align)
    ensures align > 0 && 0x8000_0000_0000_0000 % align == 0 && 0x8000_0000_0000_0000 % 8 == 0
    ensures 1 <= align <= 0x8000_0000_0000_0000
  {
    var n: nat :| n < 64 && align == Pow2(n);
    Pow2Values();
    hide Pow2;
    Pow2Add(63 - n, n);
    Pow2Mono(0, n);
    Pow2Mono(n, 63);
    DivUnique(0x8000_0000_0000_0000, align, Pow2(63 - n), 0);
  }

  lemma SmallLayout(padded: nat, size: nat)
    requires size <= 16 && size <= padded < size + 8 && padded % 8 == 0
    ensures padded <= 16
  {
  }

  lemma SmallPow2(align: nat)
    requires IsPow2(align) && align < 8
    ensures align > 0 && 8 % align == 0
  {
    var n: nat :| n < 64 && align == Pow2(n);
    Pow2Values();
    hide Pow2;
    if n >= 3 { Pow2Mono(3, n); }
  }

  lemma MultipleOfMultiple(x: nat, a: nat, b: nat)
    requires a > 0 && b > 0 && x % a == 0 && a % b == 0
    ensures x % b == 0
  {
    MulAssoc(x / a, a / b, b);
    DivUnique(x, b, x / a * (a / b), 0);
  }

  // ---- the heap as a row of tiles ----

  /** Front padding that an allocation skips is never handed back. */
  datatype Kind = Free | Live(align: nat) | Skipped

  datatype Tile = Tile(addr: nat, size: nat, kind: Kind) {
    function End(): nat { addr + size }

    predicate Ok() {
      && size > 0 && addr % NODE_ALIGN == 0 && size % NODE_ALIGN == 0
      && (!kind.Skipped? ==> size >= NODE_SIZE)
      && (kind.Live? ==> kind.align > 0 && addr % kind.align == 0)
    }
  }

  /** The tiles follow each other without gap or overlap from `start` to `end`. */
  predicate Chain(tiles: seq<Tile>, start: nat, end: nat) {
    if tiles == [] then start == end
    else tiles[0].addr == start && tiles[0].Ok() && Chain(tiles[1..], tiles[0].End(), end)
  }

  lemma {:induction false} ChainBounds(tiles: seq<Tile>, start: nat, end: nat)
    requires Chain(tiles, start, end)
    ensures start <= end
    ensures forall t :: t in tiles ==> start <= t.addr && t.End() <= end && t.Ok()
  {
    if tiles != [] {
      ChainBounds(tiles[1..], tiles[0].End(), end);
      assert tiles == [tiles[0]] + tiles[1..];
    }
  }

  /** Different tiles do not overlap. */
  lemma {:induction false} TilesApart(tiles: seq<Tile>, start: nat, end: nat, t: Tile, u: Tile)
    requires Chain(tiles, start, end) && t in tiles && u in tiles && t != u
    ensures t.End() <= u.addr || u.End() <= t.addr
  {
    ChainBounds(tiles[1..], tiles[0].End(), end);
    assert tiles == [tiles[0]] + tiles[1..];
    if t != tiles[0] && u != tiles[0] {
      TilesApart(tiles[1..], tiles[0].End(), end, t, u);
    }
  }

  /** How many bytes are free, live, and lost to padding. */
  datatype Tally = Tally(free: nat, live: nat, skipped: nat)

  function TallyOf(tiles: seq<Tile>): Tally {
    if tiles == [] then Tally(0, 0, 0)
    else
      var rest := TallyOf(tiles[1..]);
      match tiles[0].kind
      case Free => rest.(free := rest.free + tiles[0].size)
      case Live(_) => rest.(live := rest.live + tiles[0].size)
      case Skipped => rest.(skipped := rest.skipped + tiles[0].size)
  }

  /** Nothing is lost: what is free, live or skipped adds up to the whole. */
  lemma {:induction false} Conservation(tiles: seq<Tile>, start: nat, end: nat)
    requires Chain(tiles, start, end)
    ensures var tally := TallyOf(tiles); tally.free + tally.live + tally.skipped == end - start
  {
    if tiles != [] {
      ChainBounds(tiles[1..], tiles[0].End(), end);
      Conservation(tiles[1..], tiles[0].End(), end);
    }
  }

  /** `tiles` with `t` cut into `parts`. */
  function Replace(tiles: seq<Tile>, t: Tile, parts: seq<Tile>): seq<Tile> {
    if tiles == [] then []
    else if tiles[0] == t then parts + tiles[1..]
    else [tiles[0]] + Replace(tiles[1..], t, parts)
  }

  lemma {:induction false} ChainAppend(a: seq<Tile>, b: seq<Tile>, start: nat, mid: nat, end: nat)
    requires Chain(a, start, mid) && Chain(b, mid, end)
    ensures Chain(a + b, start, end)
  {
    if a == [] {
      assert a + b == b;
    } else {
      ChainAppend(a[1..], b, a[0].End(), mid, end);
      assert (a + b)[1..] == a[1..] + b;
    }
  }

  ghost predicate CutInto(tiles: seq<Tile>, t: Tile, parts: seq<Tile>, tiles': seq<Tile>) {
    forall u :: u in tiles' <==> u in parts || (u in tiles && u != t)
  }

  /** Cutting a tile up leaves the others as they are. */
  lemma {:induction false} ReplaceChain(tiles: seq<Tile>, start: nat, end: nat, t: Tile, parts: seq<Tile>)
    requires Chain(tiles, start, end) && t in tiles && Chain(parts, t.addr, t.End())
    ensures Chain(Replace(tiles, t, parts), start, end)
    ensures CutInto(tiles, t, parts, Replace(tiles, t, parts))
  {
    assert tiles == [tiles[0]] + tiles[1..];
    ChainBounds(tiles[1..], tiles[0].End(), end);
    if tiles[0] == t {
      ChainAppend(parts, tiles[1..], start, t.End(), end);
      assert t !in tiles[1..];
    } else {
      ReplaceChain(tiles[1..], tiles[0].End(), end, t, parts);
      var rest := Replace(tiles[1..], t, parts);
      assert ([tiles[0]] + rest)[1..] == rest;
    }
  }

  function Plus(a: Tally, b: Tally): Tally { Tally(a.free + b.free, a.live + b.live, a.skipped + b.skipped) }

  function TallyTile(t: Tile): Tally {
    match t.kind
    case Free => Tally(t.size, 0, 0)
    case Live(_) => Tally(0, t.size, 0)
    case Skipped => Tally(0, 0, t.size)
  }

  lemma TallyCons(t: Tile, rest: seq<Tile>)
    ensures TallyOf([t] + rest) == Plus(TallyTile(t), TallyOf(rest))
  {
    assert ([t] + rest)[1..] == rest;
  }

  lemma TallyOne(t: Tile)
    ensures TallyOf([t]) == TallyTile(t) && TallyOf([]) == Tally(0, 0, 0)
  {
    assert [t][1..] == [];
  }

  lemma {:induction false} TallyAppend(a: seq<Tile>, b: seq<Tile>)
    ensures TallyOf(a + b) == Plus(TallyOf(a), TallyOf(b))
  {
    hide TallyOf, TallyTile;
    if a == [] {
      assert a + b == b;
      TallyOne(Tile(0, 0, Free));
    } else {
      TallyAppend(a[1..], b);
      TallyCons(a[0], a[1..]);
      TallyCons(a[0], a[1..] + b);
      assert a == [a[0]] + a[1..];
      assert a + b == [a[0]] + (a[1..] + b);
    }
  }

  lemma {:induction false} TallyReplace(tiles: seq<Tile>, t: Tile, parts: seq<Tile>)
    requires t in tiles
    ensures Plus(TallyOf(Replace(tiles, t, parts)), TallyTile(t)) == Plus(TallyOf(tiles), TallyOf(parts))
  {
    hide TallyOf, TallyTile;
    assert tiles == [tiles[0]] + tiles[1..];
    TallyCons(tiles[0], tiles[1..]);
    if tiles[0] == t {
      TallyAppend(parts, tiles[1..]);
    } else {
      TallyReplace(tiles[1..], t, parts);
      TallyCons(tiles[0], Replace(tiles[1..], t, parts));
    }
  }

  lemma TallyParts(t: Tile, size: nat, align: nat)
    requires align > 0 && t.addr <= RoundUp(t.addr, align) && RoundUp(t.addr, align) + size <= t.End()
    ensures TallyOf(Parts(t, size, align))
            == Tally(t.End() - (RoundUp(t.addr, align) + size), size, RoundUp(t.addr, align) - t.addr)
  {
    hide RoundUp, TallyOf, Front, Rear;
    var start := RoundUp(t.addr, align);
    TallyRow(Front(t, start), [Tile(start, size, Live(align))], Rear(t, start + size));
    TallyEnds(t, start, start + size);
    TallyOne(Tile(start, size, Live(align)));
  }

  lemma TallyEnds(t: Tile, start: nat, end: nat)
    requires t.addr <= start && end <= t.End()
    ensures TallyOf(Front(t, start)) == Tally(0, 0, start - t.addr)
            && TallyOf(Rear(t, end)) == Tally(t.End() - end, 0, 0)
  {
    hide TallyOf;
    TallyOne(Tile(t.addr, start - t.addr, Skipped));
    TallyOne(Tile(end, t.End() - end, Free));
  }

  lemma TallyRow(a: seq<Tile>, b: seq<Tile>, c: seq<Tile>)
    ensures TallyOf(a + b + c) == Plus(Plus(TallyOf(a), TallyOf(b)), TallyOf(c))
  {
    hide TallyOf;
    TallyAppend(a, b);
    TallyAppend(a + b, c);
  }

  /** The pieces an allocation cuts a free tile into. */
  function Parts(t: Tile, size: nat, align: nat): seq<Tile>
    requires align > 0 && t.addr <= RoundUp(t.addr, align) && RoundUp(t.addr, align) + size <= t.End()
  {
    Front(t, RoundUp(t.addr, align)) + [Tile(RoundUp(t.addr, align), size, Live(align))]
      + Rear(t, RoundUp(t.addr, align) + size)
  }

  function Front(t: Tile, start: nat): seq<Tile> {
    if start > t.addr then [Tile(t.addr, start - t.addr, Skipped)] else []
  }

  function Rear(t: Tile, end: nat): seq<Tile> {
    if end < t.End() then [Tile(end, t.End() - end, Free)] else []
  }

  lemma PartsChain(t: Tile, size: nat, align: nat)
    requires t.Ok() && align % NODE_ALIGN == 0 && align > 0 && size >= NODE_SIZE && size % NODE_ALIGN == 0
    requires Room(t.addr, size, t.size, align)
    ensures t.addr <= RoundUp(t.addr, align) && RoundUp(t.addr, align) + size <= t.End()
    ensures Chain(Parts(t, size, align), t.addr, t.End())
  {
    hide RoundUp, Room, Front, Rear, Tile.Ok, Chain;
    var start := RoundUp(t.addr, align);
    Rounded(t.addr, align);
    RoomMeans(t.addr, size, t.size, align);
    MultipleOfMultiple(start, align, NODE_ALIGN);
    PartsOk(t, start, size, align);
    OneTile(Tile(start, size, Live(align)));
    FrontChain(t, start);
    RearChain(t, start + size);
    ChainAppend(Front(t, start), [Tile(start, size, Live(align))], t.addr, start, start + size);
    ChainAppend(Front(t, start) + [Tile(start, size, Live(align))], Rear(t, start + size), t.addr, start + size,
      t.End());
  }

  lemma FrontChain(t: Tile, start: nat)
    requires start >= t.addr && (start > t.addr ==> Tile(t.addr, start - t.addr, Skipped).Ok())
    ensures Chain(Front(t, start), t.addr, start)
  {
    if start > t.addr { OneTile(Tile(t.addr, start - t.addr, Skipped)); }
  }

  lemma RearChain(t: Tile, end: nat)
    requires end <= t.End() && (end < t.End() ==> Tile(end, t.End() - end, Free).Ok())
    ensures Chain(Rear(t, end), end, t.End())
  {
    if end < t.End() { OneTile(Tile(end, t.End() - end, Free)); }
  }

  lemma OneTile(t: Tile)
    requires t.Ok()
    ensures Chain([t], t.addr, t.End())
  {
  }

  lemma PartsOk(t: Tile, start: nat, size: nat, align: nat)
    requires t.Ok() && size >= NODE_SIZE && size % NODE_ALIGN == 0 && align > 0
    requires start >= t.addr && start % NODE_ALIGN == 0 && start % align == 0
    requires start + size == t.End() || start + size + NODE_SIZE <= t.End()
    ensures start > t.addr ==> Tile(t.addr, start - t.addr, Skipped).Ok()
    ensures Tile(start, size, Live(align)).Ok()
    ensures start + size < t.End() ==> Tile(start + size, t.End() - (start + size), Free).Ok()
  {
    Multiples(t.addr, t.size, start, size);
  }

  lemma Multiples(a: nat, b: nat, c: nat, d: nat)
    requires a % 8 == 0 && b % 8 == 0 && c % 8 == 0 && d % 8 == 0
    ensures (c + d) % 8 == 0 && (c - a) % 8 == 0 && (a + b - (c + d)) % 8 == 0
  {
  }

  // ---- the linked list ----

  datatype FreeNode = FreeNode(size: nat, next: Option<nat>)

  function Nth(order: seq<nat>, i: nat): Option<nat> { if i < |order| then Some(order[i]) else None }

  /** Following the links from `head` visits `order`, and no node twice. */
  ghost predicate Linked(head: Option<nat>, nodes: map<nat, FreeNode>, order: seq<nat>) {
    && head == Nth(order, 0)
    && (forall i :: 0 <= i < |order| ==> order[i] in nodes && nodes[order[i]].next == Nth(order, i + 1))
    && (forall i, j :: 0 <= i < j < |order| ==> order[i] != order[j])
  }

  /** The list holds exactly the free tiles. */
  ghost predicate Matches(nodes: map<nat, FreeNode>, order: seq<nat>, tiles: seq<Tile>) {
    && (forall a :: a in order ==> a in nodes && Tile(a, nodes[a].size, Free) in tiles)
    && (forall t :: t in tiles && t.kind.Free? ==> t.addr in order)
  }

  function Without(order: seq<nat>, i: nat): seq<nat>
    requires i < |order|
  {
    order[..i] + order[i + 1..]
  }

  lemma Unlink(head: Option<nat>, nodes: map<nat, FreeNode>, order: seq<nat>, i: nat)
    requires Linked(head, nodes, order) && i < |order|
    ensures var next := nodes[order[i]].next;
            if i == 0 then Linked(next, nodes, Without(order, 0))
            else Linked(head, nodes[order[i - 1] := nodes[order[i - 1]].(next := next)], Without(order, i))
  {
    if i > 0 {
      var p := order[i - 1];
      var more := nodes[p := nodes[p].(next := nodes[order[i]].next)];
      forall k | 0 <= k < |order| - 1
        ensures var o := Without(order, i); o[k] in more && more[o[k]].next == Nth(o, k + 1)
      {
        if k < i - 1 { assert order[k] != p; } else if k >= i { assert order[k + 1] != p; }
      }
    }
  }

  lemma Link(head: Option<nat>, nodes: map<nat, FreeNode>, order: seq<nat>, addr: nat, size: nat)
    requires Linked(head, nodes, order) && addr !in order
    ensures Linked(Some(addr), nodes[addr := FreeNode(size, head)], [addr] + order)
  {
  }

  // ---- the list against the tiles ----

  /** A free tile stands for its region: no other tile begins inside it. */
  lemma NoneInside(tiles: seq<Tile>, t: Tile, u: Tile)
    requires Chain(tiles, HEAP_START, HEAP_END) && t in tiles && u in tiles && t.addr <= u.addr < t.End()
    ensures u == t
  {
    ChainBounds(tiles, HEAP_START, HEAP_END);
    if u != t { TilesApart(tiles, HEAP_START, HEAP_END, t, u); }
  }

  lemma NotInOrder(nodes: map<nat, FreeNode>, order: seq<nat>, tiles: seq<Tile>, t: Tile, a: nat)
    requires Chain(tiles, HEAP_START, HEAP_END) && Matches(nodes, order, tiles) && t in tiles
    requires t.addr < a < t.End() || (t.addr == a && !t.kind.Free?)
    ensures a !in order
  {
    if a in order {
      var u := Tile(a, nodes[a].size, Free);
      assert u in tiles;
      ChainBounds(tiles, HEAP_START, HEAP_END);
      if u != t { TilesApart(tiles, HEAP_START, HEAP_END, t, u); }
    }
  }

  lemma WithoutMembers(order: seq<nat>, i: nat)
    requires i < |order| && forall j, k :: 0 <= j < k < |order| ==> order[j] != order[k]
    ensures forall a :: a in Without(order, i) <==> a in order && a != order[i]
  {
    var o := Without(order, i);
    forall a | a in order && a != order[i] ensures a in o {
      var j :| 0 <= j < |order| && order[j] == a;
      assert o[if j < i then j else j - 1] == a;
    }
  }

  /** What is left of `t` from `end` on. */
  function Back(t: Tile, end: nat): Option<Tile> {
    if end < t.End() then Some(Tile(end, t.End() - end, Free)) else None
  }

  function Listed(back: Option<Tile>, order: seq<nat>): seq<nat> {
    if back.Some? then [back.value.addr] + order else order
  }

  /** The nodes on the list, other than that at `gone`, keep their sizes. */
  ghost predicate Carried(nodes: map<nat, FreeNode>, order: seq<nat>, gone: nat, nodes': map<nat, FreeNode>) {
    forall a :: a in order && a != gone ==> a in nodes && a in nodes' && nodes'[a].size == nodes[a].size
  }

  predicate Holds(nodes: map<nat, FreeNode>, back: Option<Tile>) {
    back.Some? ==> back.value.addr in nodes && nodes[back.value.addr].size == back.value.size
  }

  ghost predicate OnlyFree(parts: seq<Tile>, back: Option<Tile>) {
    forall u :: u in parts && u.kind.Free? <==> back == Some(u)
  }

  /** The list still matches when a free tile is cut into pieces of which at most one, `back`, is free. */
  lemma PiecesMatch(nodes: map<nat, FreeNode>, order: seq<nat>, tiles: seq<Tile>, t: Tile, parts: seq<Tile>,
      back: Option<Tile>, nodes': map<nat, FreeNode>, order': seq<nat>, tiles': seq<Tile>)
    requires Chain(tiles, HEAP_START, HEAP_END) && Matches(nodes, order, tiles) && t in tiles
    requires CutInto(tiles, t, parts, tiles') && OnlyFree(parts, back)
    requires forall a :: a in order' <==> (back.Some? && a == back.value.addr) || (a in order && a != t.addr)
    requires Carried(nodes, order, t.addr, nodes') && Holds(nodes', back)
    ensures Matches(nodes', order', tiles')
  {
    forall u | u in tiles' && u.kind.Free? ensures u.addr in order' {
      if u in tiles && u != t && u.addr == t.addr {
        ChainBounds(tiles, HEAP_START, HEAP_END);
        NoneInside(tiles, t, u);
      }
    }
    hide Chain;
    forall a | a in order' ensures a in nodes' && Tile(a, nodes'[a].size, Free) in tiles' {
      if a in order && a != t.addr {
        assert Tile(a, nodes[a].size, Free) in tiles;
      } else {
        assert back.value in parts && Tile(a, nodes'[a].size, Free) == back.value;
      }
    }
  }

  lemma CarriedPast(nodes: map<nat, FreeNode>, order: seq<nat>, gone: nat, nodes': map<nat, FreeNode>, addr: nat,
      node: FreeNode)
    requires Carried(nodes, order, gone, nodes') && addr !in order
    ensures Carried(nodes, order, gone, nodes'[addr := node])
  {
  }

  lemma NotInWithout(order: seq<nat>, i: nat, a: nat)
    requires i < |order| && a !in order
    ensures a !in Without(order, i)
  {
  }

  /** The list and the tiles once node `at` is cut. */
  lemma CutMatches(nodes: map<nat, FreeNode>, order: seq<nat>, tiles: seq<Tile>, at: nat, t: Tile, start: nat,
      size: nat, align: nat, nodes': map<nat, FreeNode>, order': seq<nat>)
    requires Chain(tiles, HEAP_START, HEAP_END) && Matches(nodes, order, tiles) && at < |order|
    requires forall j, k :: 0 <= j < k < |order| ==> order[j] != order[k]
    requires t in tiles && t == Tile(order[at], nodes[order[at]].size, Free) && align > 0
             && start == RoundUp(t.addr, align)
    requires t.addr <= start && start + size <= t.End() && Chain(Parts(t, size, align), t.addr, t.End())
    requires order' == Listed(Back(t, start + size), Without(order, at))
    requires Carried(nodes, order, t.addr, nodes') && Holds(nodes', Back(t, start + size))
    ensures Chain(Replace(tiles, t, Parts(t, size, align)), HEAP_START, HEAP_END)
    ensures Matches(nodes', order', Replace(tiles, t, Parts(t, size, align)))
  {
    hide *;
    ReplaceChain(tiles, HEAP_START, HEAP_END, t, Parts(t, size, align));
    FreePart(t, size, align);
    CutMembers(order, at, Back(t, start + size));
    PiecesMatch(nodes, order, tiles, t, Parts(t, size, align), Back(t, start + size), nodes', order',
      Replace(tiles, t, Parts(t, size, align)));
  }

  lemma CutMembers(order: seq<nat>, at: nat, back: Option<Tile>)
    requires at < |order| && forall j, k :: 0 <= j < k < |order| ==> order[j] != order[k]
    ensures forall a ::
              a in Listed(back, Without(order, at))
              <==> (back.Some? && a == back.value.addr) || (a in order && a != order[at])
  {
    WithoutMembers(order, at);
    hide Without;
  }

  /** None of the first `n` regions on the list has room. */
  ghost predicate NoRoomBefore(nodes: map<nat, FreeNode>, order: seq<nat>, n: nat, size: nat, align: nat)
    requires align > 0
  {
    n <= |order| && forall i :: 0 <= i < n ==> order[i] in nodes && !Room(order[i], size, nodes[order[i]].size, align)
  }

  /** Freeing a live tile turns it into a free one. */
  lemma Freed(tiles: seq<Tile>, t: Tile, u: Tile, nodes: map<nat, FreeNode>, order: seq<nat>)
    requires Chain(tiles, HEAP_START, HEAP_END) && Matches(nodes, order, tiles) && t in tiles && t.kind.Live?
             && u == t.(kind := Free)
    ensures t.size >= NODE_SIZE && Chain([u], t.addr, t.End())
    ensures Chain(Replace(tiles, t, [u]), HEAP_START, HEAP_END) && CutInto(tiles, t, [u], Replace(tiles, t, [u]))
    ensures OnlyFree([u], Some(u)) && Carried(nodes, order, t.addr, nodes)
  {
    ChainBounds(tiles, HEAP_START, HEAP_END);
    OneTile(u);
    ReplaceChain(tiles, HEAP_START, HEAP_END, t, [u]);
  }

  /** What `Alloc`'s cut means for the blocks in use. */
  lemma BlockAdded(tiles: seq<Tile>, t: Tile, size: nat, a: nat, align: nat)
    requires Chain(tiles, HEAP_START, HEAP_END) && t in tiles && t.kind.Free? && a > 0 && align > 0 && a % align == 0
    requires a % NODE_ALIGN == 0 && size >= NODE_SIZE && size % NODE_ALIGN == 0
    requires Room(t.addr, size, t.size, a) && t.addr <= RoundUp(t.addr, a) && RoundUp(t.addr, a) + size <= t.End()
    ensures var now := Replace(tiles, t, Parts(t, size, a)); var block := Tile(RoundUp(t.addr, a), size, Live(a));
            && block in now && block !in tiles && block.addr % align == 0
            && (forall u :: u in now && u.kind.Live? <==> u == block || (u in tiles && u.kind.Live?))
            && TallyOf(now).live == TallyOf(tiles).live + size
            && 0 <= TallyOf(now).skipped - TallyOf(tiles).skipped < a
  {
    hide RoundUp, Room, Chain, Replace, TallyOf;
    var parts := Parts(t, size, a);
    var block := Tile(RoundUp(t.addr, a), size, Live(a));
    Rounded(t.addr, a);
    MultipleOfMultiple(block.addr, a, align);
    ChainBounds(tiles, HEAP_START, HEAP_END);
    PartsChain(t, size, a);
    ReplaceChain(tiles, HEAP_START, HEAP_END, t, parts);
    if block in tiles { TilesApart(tiles, HEAP_START, HEAP_END, t, block); }
    LivePart(t, size, a);
    TallyReplace(tiles, t, parts);
    TallyParts(t, size, a);
  }

  lemma LivePart(t: Tile, size: nat, align: nat)
    requires align > 0 && t.addr <= RoundUp(t.addr, align) && RoundUp(t.addr, align) + size <= t.End()
    ensures forall u ::
              u in Parts(t, size, align) && u.kind.Live?
              <==> u == Tile(RoundUp(t.addr, align), size, Live(align))
  {
    hide RoundUp;
    var parts := Parts(t, size, align);
    var k := if RoundUp(t.addr, align) > t.addr then 1 else 0;
    assert parts[k] == Tile(RoundUp(t.addr, align), size, Live(align));
  }

  /** What giving a block back means for the blocks in use. */
  lemma BlockGone(tiles: seq<Tile>, t: Tile)
    requires Chain(tiles, HEAP_START, HEAP_END) && t in tiles && t.kind.Live?
    ensures var now := Replace(tiles, t, [t.(kind := Free)]);
            && (forall u :: u in now && u.kind.Live? <==> u in tiles && u.kind.Live? && u != t)
            && TallyOf(now).live == TallyOf(tiles).live - t.size && TallyOf(now).free == TallyOf(tiles).free + t.size
            && TallyOf(now).skipped == TallyOf(tiles).skipped
  {
    hide Chain, Replace, TallyOf;
    var u := t.(kind := Free);
    ChainBounds(tiles, HEAP_START, HEAP_END);
    OneTile(u);
    ReplaceChain(tiles, HEAP_START, HEAP_END, t, [u]);
    TallyReplace(tiles, t, [u]);
    TallyOne(u);
  }

  datatype Allocation = Block(ptr: nat) | Null | Panic

  class FreeListAllocator {
    var head: Option<nat>
    /** The nodes in memory. A node is only looked at while its region is free. */
    var nodes: map<nat, FreeNode>
    /** The addresses on the list, in order, and what every part of the heap is used for. */
    ghost var order: seq<nat>
    ghost var tiles: seq<Tile>

    ghost predicate Valid()
      reads this
    {
      Linked(head, nodes, order) && Chain(tiles, HEAP_START, HEAP_END) && Matches(nodes, order, tiles)
    }

    /** The allocator once `init` has handed it the heap as one free region. */
    constructor ()
      ensures Valid() && tiles == [Tile(HEAP_START, HEAP_SIZE, Free)]
    {
      head, nodes := None, map[];
      order, tiles := [], [Tile(HEAP_START, HEAP_SIZE, Free)];
      new;
      AddFreeRegion(HEAP_START, HEAP_SIZE);
    }

    /** Puts a region at the front of the list; a region too small for a node is dropped. */
    method AddFreeRegion(addr: nat, size: nat)
      requires Linked(head, nodes, order) && addr !in order
      modifies this`head, this`nodes, this`order
      ensures Linked(head, nodes, order)
      ensures size < NODE_SIZE ==> order == old(order) && nodes == old(nodes)
      ensures size >= NODE_SIZE ==>
              order == [addr] + old(order) && nodes == old(nodes)[addr := FreeNode(size, old(head))]
    {
      if size < NODE_SIZE {
        return;
      }
      Link(head, nodes, order, addr, size);
      hide Linked;
      nodes := nodes[addr := FreeNode(size, head)];
      head := Some(addr);
      order := [addr] + order;
    }

    /** Takes node `at`, which follows `prev`, off the list. */
    method TakeOff(prev: Option<nat>, ghost at: nat)
      requires Linked(head, nodes, order) && at < |order| && prev == (if at == 0 then None else Some(order[at - 1]))
      modifies this`head, this`nodes, this`order
      ensures Linked(head, nodes, order) && order == Without(old(order), at)
      ensures Carried(old(nodes), old(order), old(order)[at], nodes)
    {
      Unlink(head, nodes, order, at);
      if prev.None? {
        head := nodes[head.value].next;
      } else {
        var node := nodes[prev.value];
        nodes := nodes[prev.value := node.(next := nodes[node.next.value].next)];
      }
      order := Without(order, at);
    }

    /** The free tile whose node is `i`-th on the list. */
    ghost function Region(i: nat): Tile
      reads this
      requires Linked(head, nodes, order) && i < |order|
    {
      Tile(order[i], nodes[order[i]].size, Free)
    }

    /** Cuts the block out of node `at`: the node comes off the list, and what is left behind the block goes on it. */
    method Cut(prev: Option<nat>, region: nat, start: nat, size: nat, ghost align: nat, ghost at: nat)
      requires Valid() && at < |order| && prev == (if at == 0 then None else Some(order[at - 1])) && region == order[at]
      requires align > 0 && align % NODE_ALIGN == 0 && size >= NODE_SIZE && size % NODE_ALIGN == 0
      requires Room(region, size, Region(at).size, align) && start == RoundUp(region, align)
      modifies this
      ensures Valid()
      ensures var t := old(Region(at));
              && t.addr <= start && start + size <= t.End()
              && tiles == Replace(old(tiles), t, Parts(t, size, align))
              && order == Listed(Back(t, start + size), Without(old(order), at))
    {
      hide Chain, Linked, Matches, RoundUp, Replace, Parts, Room, Without, Tile.Ok, Carried, CutInto, OnlyFree;
      ghost var t := Region(at);
      ghost var nodes0, order0 := nodes, order;
      var end := start + size;
      RoomMeans(region, size, t.size, align);
      ListedTile(at);
      PartsChain(t, size, align);
      if end < t.End() {
        NotInOrder(nodes, order, tiles, t, end);
        NotInWithout(order, at, end);
      }
      var regionEnd := region + nodes[region].size;
      TakeOff(prev, at);
      var excess := regionEnd - end;
      if excess > 0 {
        CarriedPast(nodes0, order0, region, nodes, end, FreeNode(excess, head));
        AddFreeRegion(end, excess);
      }
      CutMatches(nodes0, order0, tiles, at, t, start, size, align, nodes, order);
      tiles := Replace(tiles, t, Parts(t, size, align));
    }

    lemma ListedTile(at: nat)
      requires Valid() && at < |order|
      ensures Region(at) in tiles && Region(at).Ok() && InHeap(Region(at).addr, Region(at).size) && order[at] in nodes
      ensures forall i, j :: 0 <= i < j < |order| ==> order[i] != order[j]
    {
      assert order[at] in order;
      ChainBounds(tiles, HEAP_START, HEAP_END);
    }

    /**
     First fit: the block comes from the first region on the list that has room for it, and null is returned only when
     no free region has. `size` and `align` are as `SizeAlign` leaves them.
     */
    method Alloc(size: nat, align: nat) returns (r: Option<nat>, ghost at: nat)
      requires Valid() && IsPow2(align) && NODE_ALIGN <= align < TOO_ALIGNED && size >= NODE_SIZE
               && size % NODE_ALIGN == 0
      modifies this
      ensures Valid()
      ensures r.None? <==> forall t :: t in old(tiles) && t.kind.Free? ==> !Room(t.addr, size, t.size, align)
      ensures r.None? ==> tiles == old(tiles) && order == old(order)
      ensures r.Some? ==>
                && at < |old(order)| && NoRoomBefore(old(nodes), old(order), at, size, align)
                && var t := old(Region(at));
                   && t in old(tiles) && Room(t.addr, size, t.size, align) && r.value == RoundUp(t.addr, align)
                   && t.addr <= r.value && r.value + size <= t.End()
                   && tiles == Replace(old(tiles), t, Parts(t, size, align))
                   && order == Listed(Back(t, r.value + size), Without(old(order), at))
    {
      hide Chain, RoundUp, Room, IsPow2, Replace, Parts, Matches, Linked, NoRoomBefore, Without, Listed, Back, Tile.Ok;
      Pow2Cases(align);
      var prev, region, fit;
      prev, region, fit, at := Search(size, align);
      if fit.None? {
        return None, at;
      }
      ListedTile(at);
      ghost var t := Region(at);
      PartsChain(t, size, align);
      Cut(prev, region, fit.value, size, align, at);
      assert t == old(Region(at)) && t in old(tiles);
      return fit, at;
    }

    /** Gives a block back: its bytes become a free region at the front of the list. */
    method Dealloc(ptr: nat, size: nat, ghost align: nat)
      requires Valid() && Tile(ptr, size, Live(align)) in tiles
      modifies this
      ensures Valid() && order == [ptr] + old(order)
      ensures tiles == Replace(old(tiles), Tile(ptr, size, Live(align)), [Tile(ptr, size, Free)])
    {
      hide Chain, Linked, Matches, Replace, Tile.Ok, Carried, CutInto, OnlyFree;
      ghost var t, u := Tile(ptr, size, Live(align)), Tile(ptr, size, Free);
      ghost var nodes0, order0 := nodes, order;
      NotInOrder(nodes, order, tiles, t, ptr);
      Freed(tiles, t, u, nodes, order);
      AddFreeRegion(ptr, size);
      CarriedPast(nodes0, order0, ptr, nodes0, ptr, nodes[ptr]);
      PiecesMatch(nodes0, order0, tiles, t, [u], Some(u), nodes, order, Replace(tiles, t, [u]));
      tiles := Replace(tiles, t, [u]);
    }

    /** The global allocator's `alloc`. */
    method Allocate(size: nat, align: nat) returns (r: Allocation)
      requires Valid() && IsPow2(align) && align < TOO_ALIGNED
      modifies this
      ensures Valid()
      ensures r.Panic? <==> size > 0x8000_0000_0000_0000 - if align < 8 then 8 else align
      ensures r.Panic? <==> SizeAlign(size, align).None?
      ensures r.Panic? || r.Null? ==> tiles == old(tiles)
      ensures r.Null? ==> forall t :: t in old(tiles) && t.kind.Free? ==>
              !Room(t.addr, SizeAlign(size, align).value.0, t.size, SizeAlign(size, align).value.1)
      ensures r.Block? ==>
                var (s, a) := SizeAlign(size, align).value;
                var block := Tile(r.ptr, s, Live(a));
                && block in tiles && block !in old(tiles) && r.ptr % align == 0
                && (forall u :: u in tiles && u.kind.Live? <==> u == block || (u in old(tiles) && u.kind.Live?))
                && TallyOf(tiles).live == old(TallyOf(tiles)).live + s
                && 0 <= TallyOf(tiles).skipped - old(TallyOf(tiles)).skipped < a
    {
      hide Chain, Linked, Matches, Replace, RoundUp, Room, IsPow2, TallyOf, NoRoomBefore, SizeAlign;
      Pow2Cases(align);
      SizeAlignExact(size, align);
      var sa := SizeAlign(size, align);
      if sa.None? {
        return Panic;
      }
      SizeAlignFits(size, align);
      var ptr;
      ghost var at;
      ptr, at := Alloc(sa.value.0, sa.value.1);
      if ptr.None? {
        return Null;
      }
      BlockAdded(old(tiles), old(Region(at)), sa.value.0, sa.value.1, align);
      return Block(ptr.value);
    }

    /** The global allocator's `dealloc`, with the layout the block was allocated with. */
    method Deallocate(ptr: nat, size: nat, align: nat)
      requires Valid() && IsPow2(align) && SizeAlign(size, align).Some?
      requires Tile(ptr, SizeAlign(size, align).value.0, Live(SizeAlign(size, align).value.1)) in tiles
      modifies this
      ensures Valid()
      ensures var (s, a) := SizeAlign(size, align).value;
              && (forall t ::
                    t in tiles && t.kind.Live?
                    <==> t in old(tiles) && t.kind.Live? && t != Tile(ptr, s, Live(a)))
              && TallyOf(tiles).live == old(TallyOf(tiles)).live - s
                && TallyOf(tiles).free == old(TallyOf(tiles)).free + s
              && TallyOf(tiles).skipped == old(TallyOf(tiles)).skipped
    {
      hide Chain, Linked, Matches, Replace, RoundUp, Room, IsPow2, TallyOf, NoRoomBefore, SizeAlign;
      Pow2Cases(align);
      var s := SizeAlign(size, align).value.0;
      BlockGone(tiles, Tile(ptr, s, Live(SizeAlign(size, align).value.1)));
      Dealloc(ptr, s, SizeAlign(size, align).value.1);
    }

    /** The owner of a block may overwrite it at will: no node of the list is in it. */
    method ClientWrites(ghost block: Tile, cells: map<nat, FreeNode>)
      requires Valid() && block in tiles && block.kind.Live?
      requires forall a :: a in cells ==> block.addr <= a && a + NODE_SIZE <= block.End()
      modifies this`nodes
      ensures Valid()
    {
      hide Chain;
      OutOfReach(block, cells);
      nodes := nodes + cells;
    }

    lemma OutOfReach(block: Tile, cells: map<nat, FreeNode>)
      requires Valid() && block in tiles && block.kind.Live?
      requires forall a :: a in cells ==> block.addr <= a && a + NODE_SIZE <= block.End()
      ensures forall a :: a in order ==> a !in cells
    {
      forall a | a in cells ensures a !in order {
        NotInOrder(nodes, order, tiles, block, a);
      }
    }

    /** Blocks in use and free regions lie in the heap, are aligned, and do not overlap. */
    lemma NoOverlap(t: Tile, u: Tile)
      requires Valid() && t in tiles && u in tiles && t != u
      ensures HEAP_START <= t.addr && t.End() <= HEAP_END && t.Ok()
      ensures t.End() <= u.addr || u.End() <= t.addr
    {
      ChainBounds(tiles, HEAP_START, HEAP_END);
      TilesApart(tiles, HEAP_START, HEAP_END, t, u);
    }

    /** Free, live and skipped bytes always add up to the heap. */
    lemma Accounted()
      requires Valid()
      ensures TallyOf(tiles).free + TallyOf(tiles).live + TallyOf(tiles).skipped == HEAP_SIZE
    {
      Conservation(tiles, HEAP_START, HEAP_END);
    }

    /** The walk along the list: the first placement found, and the node before it. */
    method Search(size: nat, align: nat) returns (prev: Option<nat>, region: nat, fit: Option<nat>, ghost at: nat)
      requires Valid() && IsPow2(align) && NODE_ALIGN <= align < TOO_ALIGNED
      ensures NoRoomBefore(nodes, order, at, size, align)
      ensures fit.None? ==> forall t :: t in tiles && t.kind.Free? ==> !Room(t.addr, size, t.size, align)
      ensures fit.Some? ==>
                && at < |order| && region == order[at] && prev == (if at == 0 then None else Some(order[at - 1]))
                && Room(Region(at).addr, size, Region(at).size, align) && fit.value == RoundUp(Region(at).addr, align)
    {
      hide Chain, RoundUp, Room, RegionFits, IsPow2, Matches;
      prev, region, at := None, 0, 0;
      while true
        invariant at <= |order| && prev == (if at == 0 then None else Some(order[at - 1]))
        invariant NoRoomBefore(nodes, order, at, size, align)
        decreases |order| - at
      {
        var current := if prev.None? then head else nodes[prev.value].next;
        if current.None? {
          NoRoom(size, align);
          return prev, region, None, at;
        }
        region := current.value;
        ListedTile(at);
        FitsIsRoom(region, size, nodes[region].size, align);
        fit := RegionFits(region, size, nodes[region].size, align);
        if fit.Some? {
          return;
        }
        prev := current;
        at := at + 1;
      }
    }

    /** The whole list has been tried, so every free tile has. */
    lemma NoRoom(size: nat, align: nat)
      requires Valid() && align > 0
      requires NoRoomBefore(nodes, order, |order|, size, align)
      ensures forall t :: t in tiles && t.kind.Free? ==> !Room(t.addr, size, t.size, align)
    {
      forall t | t in tiles && t.kind.Free? ensures !Room(t.addr, size, t.size, align) {
        var i :| 0 <= i < |order| && order[i] == t.addr;
        ListedTile(i);
        ChainBounds(tiles, HEAP_START, HEAP_END);
        NoneInside(tiles, t, Region(i));
      }
    }
  }

  /** The only free piece of an allocation is what is left behind the block. */
  lemma FreePart(t: Tile, size: nat, align: nat)
    requires align > 0 && t.addr <= RoundUp(t.addr, align) && RoundUp(t.addr, align) + size <= t.End()
    ensures OnlyFree(Parts(t, size, align), Back(t, RoundUp(t.addr, align) + size))
  {
    hide RoundUp;
    var end := RoundUp(t.addr, align) + size;
    if end < t.End() {
      var parts := Parts(t, size, align);
      assert parts[|parts| - 1] == Tile(end, t.End() - end, Free);
    }
  }
}
