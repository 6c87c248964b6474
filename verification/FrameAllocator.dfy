/** The bitmap frame allocator of kernel/src/memory/pmm.rs. */
module FrameAllocator {
  import opened Common

  const PAGE_SIZE: nat := 4096

  // ---- bits of the bitmap ----

  /** `1 << bit` */
  function Mask(i: nat): bv8
    requires i < 8
  {
    match i case 0 => 1 case 1 => 2 case 2 => 4 case 3 => 8 case 4 => 16 case 5 => 32 case 6 => 64 case 7 => 128
  }

  predicate TestBit(b: bv8, i: nat)
    requires i < 8
  {
    b & Mask(i) != 0
  }

  /** The byte with bit `i` set or cleared. */
  function WithBit(b: bv8, i: nat, used: bool): bv8
    requires i < 8
  {
    if used then b | Mask(i) else b & !Mask(i)
  }

  lemma WithBitTest(b: bv8, i: nat, used: bool, j: nat)
    requires i < 8 && j < 8
    ensures TestBit(WithBit(b, i, used), j) == if i == j then used else TestBit(b, j)
  {
  }

  lemma AllOnes(i: nat)
    requires i < 8
    ensures TestBit(0xFF, i)
  {
  }

  /** Whether frame `f` is marked used in the bitmap. */
  predicate IsUsed(bitmap: seq<bv8>, f: nat)
    requires f / 8 < |bitmap|
  {
    TestBit(bitmap[f / 8], f % 8)
  }

  lemma MarkedBit(bitmap: seq<bv8>, frame: nat, used: bool, f: nat)
    requires frame / 8 < |bitmap| && f / 8 < |bitmap|
    ensures IsUsed(bitmap[frame / 8 := WithBit(bitmap[frame / 8], frame % 8, used)], f)
            == if f == frame then used else IsUsed(bitmap, f)
  {
    hide TestBit, Mask, WithBit;
    if frame / 8 == f / 8 {
      WithBitTest(bitmap[frame / 8], frame % 8, used, f % 8);
    }
  }

  /** Exactly the bit of `frame` has been cleared. */
  ghost predicate Cleared(before: seq<bv8>, after: seq<bv8>, frame: nat) {
    && |after| == |before|
    && forall f: nat :: f < 8 * |after| ==> IsUsed(after, f) == (f != frame && IsUsed(before, f))
  }

  lemma UsedBit(bitmap: seq<bv8>, f: nat)
    requires f / 8 < |bitmap|
    ensures IsUsed(bitmap, f) == TestBit(bitmap[f / 8], f % 8)
  {
  }

  lemma AllMarked(bitmap: seq<bv8>, frame: nat, used: bool)
    requires frame / 8 < |bitmap|
    ensures var marked := bitmap[frame / 8 := WithBit(bitmap[frame / 8], frame % 8, used)];
            forall f: nat :: f < 8 * |bitmap| ==> IsUsed(marked, f) == if f == frame then used else IsUsed(bitmap, f)
  {
    hide TestBit, Mask, WithBit, IsUsed;
    var marked := bitmap[frame / 8 := WithBit(bitmap[frame / 8], frame % 8, used)];
    forall f: nat | f < 8 * |bitmap|
      ensures IsUsed(marked, f) == if f == frame then used else IsUsed(bitmap, f)
    {
      MarkedBit(bitmap, frame, used, f);
    }
  }

  /** `free` is the set of clear bits; the bits from `n` on, which fill up the last byte, are all set. */
  ghost predicate ClearBits(bitmap: seq<bv8>, free: set<nat>, n: nat) {
    && |bitmap| == CeilDiv(n, 8)
    && (forall f: nat :: f in free ==> f < n)
    && forall f: nat :: f < 8 * |bitmap| ==> (f in free <==> !IsUsed(bitmap, f))
  }

  lemma MarkedBits(bitmap: seq<bv8>, free: set<nat>, n: nat, frame: nat, used: bool)
    requires ClearBits(bitmap, free, n) && frame / 8 < |bitmap| && (used || frame < n)
    ensures ClearBits(bitmap[frame / 8 := WithBit(bitmap[frame / 8], frame % 8, used)],
                      if used then free - {frame} else free + {frame}, n)
  {
    hide TestBit, Mask, WithBit, IsUsed;
    AllMarked(bitmap, frame, used);
  }

  // ---- sets of frames ----

  ghost function Range(start: nat, end: nat): (r: set<nat>)
    ensures forall f: nat :: f in r <==> start <= f < end
    decreases end
  {
    if start < end then Range(start, end - 1) + {end - 1} else {}
  }

  lemma AllFrames(frameCount: nat, f: nat)
    requires f < frameCount
    ensures f in Range(0, frameCount)
  {
  }

  /** `count` frames from `start` on. */
  ghost function Run(start: nat, count: nat): set<nat> { Range(start, start + count) }

  function CeilDiv(a: nat, b: nat): nat
    requires b > 0
  {
    (a + b - 1) / b
  }

  /** The frames that lie wholly inside `[base, base + length)`. */
  ghost predicate Inside(f: nat, base: nat, length: nat) {
    base <= f * PAGE_SIZE && (f + 1) * PAGE_SIZE <= base + length
  }

  /** The frames that share a byte with `[base, base + length)`. */
  ghost predicate Touches(f: nat, base: nat, length: nat) {
    f * PAGE_SIZE < base + length && base < (f + 1) * PAGE_SIZE && length > 0
  }

  /** The frames `mark_range_free` frees and `mark_range_used` takes. */
  ghost function FreedBy(base: nat, length: nat): set<nat> { Range(base / PAGE_SIZE, (base + length) / PAGE_SIZE) }

  ghost function TakenBy(base: nat, length: nat): set<nat> {
    Range(base / PAGE_SIZE, CeilDiv(base + length, PAGE_SIZE))
  }

  /**
   Rounding the base down is harmless exactly when it rounds nothing off, or nothing is freed at all.
   */
  lemma FreedFramesLieInside(base: nat, length: nat)
    ensures (forall f: nat :: f in FreedBy(base, length) ==> Inside(f, base, length))
            <==> base % PAGE_SIZE == 0 || base / PAGE_SIZE == (base + length) / PAGE_SIZE
    ensures forall f: nat :: Inside(f, base, length) ==> f in FreedBy(base, length)
  {
    if base % PAGE_SIZE != 0 && base / PAGE_SIZE != (base + length) / PAGE_SIZE {
      assert base / PAGE_SIZE in FreedBy(base, length) && !Inside(base / PAGE_SIZE, base, length);
    }
  }

  /** Rounding outwards takes every frame the range touches, and only those. */
  lemma TakenFramesTouch(base: nat, length: nat, f: nat)
    requires length > 0
    ensures f in TakenBy(base, length) <==> Touches(f, base, length)
  {
  }

  /** The three sets are disjoint and together are `all`. */
  ghost predicate Partition(free: set<nat>, outstanding: set<nat>, reserved: set<nat>, all: set<nat>) {
    free !! outstanding && free !! reserved && outstanding !! reserved && free + outstanding + reserved == all
  }

  lemma TakeFromFree(free: set<nat>, outstanding: set<nat>, reserved: set<nat>, all: set<nat>, taken: set<nat>)
    requires Partition(free, outstanding, reserved, all) && taken <= free
    ensures Partition(free - taken, outstanding + taken, reserved, all)
  {
  }

  lemma SizeAfterMark(free: set<nat>, frame: nat, used: bool)
    ensures used && frame in free ==> |free - {frame}| == |free| - 1
    ensures used && frame !in free ==> free - {frame} == free
    ensures !used && frame in free ==> free + {frame} == free
    ensures !used && frame !in free ==> |free + {frame}| == |free| + 1
  {
  }

  lemma ReturnToFree(free: set<nat>, outstanding: set<nat>, reserved: set<nat>, all: set<nat>, f: nat)
    requires Partition(free, outstanding, reserved, all) && f in all
    ensures Partition(free + {f}, outstanding - {f}, reserved - {f}, all)
  {
  }

  class BitmapAllocator {
    const bitmap: array<bv8>
    const frameCount: nat
    var freeFrames: nat
    var nextHint: nat

    /** The clear bits; the frames handed out and not yet returned; the frames never to be handed out. */
    ghost var free: set<nat>
    ghost var outstanding: set<nat>
    ghost var reserved: set<nat>

    /** `free` is the set of clear bits below `frameCount`, and the counter is its size. */
    ghost predicate Counted()
      reads this`freeFrames, this`free, bitmap
      ensures Counted() ==> frameCount <= 8 * bitmap.Length && forall f: nat :: f in free ==> f < frameCount
    {
      ClearBits(bitmap[..], free, frameCount) && freeFrames == |free|
    }

    /** Every frame is free, outstanding or reserved, and never two of these. */
    ghost predicate Valid()
      reads this, bitmap
    {
      Counted() && nextHint <= frameCount && Partition(free, outstanding, reserved, Range(0, frameCount))
    }

    constructor (frameCount: nat)
      ensures Counted() && nextHint == 0 && this.frameCount == frameCount && free == {} && outstanding == {}
      ensures fresh(bitmap) && bitmap.Length == CeilDiv(frameCount, 8)
    {
      this.frameCount := frameCount;
      bitmap := new bv8[CeilDiv(frameCount, 8)](_ => 0xFF);
      freeFrames, nextHint := 0, 0;
      free, outstanding, reserved := {}, {}, {};
      new;
      forall f: nat | f < 8 * bitmap.Length ensures IsUsed(bitmap[..], f) { AllOnes(f % 8); }
    }

    /**
     Sets or clears one bit and keeps count. Clearing a bit that only fills up the last byte counts a frame that is not
     there.
     */
    method Mark(frame: nat, used: bool)
      requires Counted() && frame / 8 < bitmap.Length
      modifies this`freeFrames, this`free, bitmap
      ensures used || frame < frameCount ==>
                Counted() && free == if used then old(free) - {frame} else old(free) + {frame}
      ensures !used && frame >= frameCount ==>
                && !Counted() && free == old(free) && freeFrames == |free| + 1
                && Cleared(old(bitmap[..]), bitmap[..], frame)
    {
      hide TestBit, Mask, WithBit, IsUsed;
      var i, bit := frame / 8, frame % 8;
      var wasUsed := TestBit(bitmap[i], bit);
      ghost var before, was := bitmap[..], free;
      UsedBit(before, frame);
      AllMarked(before, frame, used);
      bitmap[i] := WithBit(bitmap[i], bit, used);
      assert bitmap[..] == before[i := WithBit(before[i], bit, used)];
      SizeAfterMark(free, frame, used);
      if used || frame < frameCount {
        MarkedBits(before, free, frameCount, frame, used);
        free := if used then free - {frame} else free + {frame};
      }
      if !wasUsed && used {
        freeFrames := freeFrames - 1;
      } else if wasUsed && !used {
        freeFrames := freeFrames + 1;
      }
    }

    lemma ValidParts()
      requires Valid()
      ensures Counted() && nextHint <= frameCount && Partition(free, outstanding, reserved, Range(0, frameCount))
    {
    }

    lemma FreeIsNotReserved()
      requires Valid()
      ensures free !! reserved
    {
    }

    /** Settles which frames are never handed out: those that are not free at the start. */
    ghost method Reserve()
      requires Counted() && nextHint == 0
      modifies this`reserved, this`outstanding
      ensures Valid() && outstanding == {}
    {
      hide Counted;
      outstanding, reserved := {}, Range(0, frameCount) - free;
    }

    method IsFree(frame: nat) returns (b: bool)
      requires Counted() && frame < frameCount
      ensures b == (frame in free)
    {
      b := !TestBit(bitmap[frame / 8], frame % 8);
      assert !b == IsUsed(bitmap[..], frame);
    }

    method MarkRange(start: nat, end: nat, used: bool)
      requires Counted() && end <= (if used then 8 * bitmap.Length else frameCount)
      modifies this`freeFrames, this`free, bitmap
      ensures Counted() && free == if used then old(free) - Range(start, end) else old(free) + Range(start, end)
    {
      hide IsUsed, Range, Counted;
      var frame := start;
      while frame < end
        invariant start <= frame && (frame <= end || frame == start)
        invariant Counted()
        invariant free == if used then old(free) - Range(start, frame) else old(free) + Range(start, frame)
      {
        Mark(frame, used);
        frame := frame + 1;
      }
    }

    method MarkRangeFree(base: nat, length: nat)
      requires Counted() && (base + length) / PAGE_SIZE <= frameCount
      modifies this`freeFrames, this`free, bitmap
      ensures Counted() && free == old(free) + FreedBy(base, length)
    {
      MarkRange(base / PAGE_SIZE, (base + length) / PAGE_SIZE, false);
    }

    method MarkRangeUsed(base: nat, length: nat)
      requires Counted() && CeilDiv(base + length, PAGE_SIZE) <= 8 * bitmap.Length
      modifies this`freeFrames, this`free, bitmap
      ensures Counted() && free == old(free) - TakenBy(base, length)
    {
      MarkRange(base / PAGE_SIZE, CeilDiv(base + length, PAGE_SIZE), true);
    }

    /**
     The first free frame at or after the hint, wrapping around. None exactly when no frame is free.
     */
    method Alloc() returns (r: Option<nat>)
      requires Valid()
      modifies this, bitmap
      ensures Valid() && reserved == old(reserved)
      ensures r == None <==> old(free) == {}
      ensures r == None ==> free == old(free) && outstanding == old(outstanding)
      ensures r.Some? ==>
                var f := r.value / PAGE_SIZE;
                && r.value == f * PAGE_SIZE && f in old(free)
                && free == old(free) - {f} && outstanding == old(outstanding) + {f}
                && nextHint == f + 1
                && (forall g: nat :: g < frameCount && g in old(free) ==>
                    Distance(old(nextHint), f, frameCount) <= Distance(old(nextHint), g, frameCount))
    {
      hide Counted, Range, Partition;
      var offset := 0;
      while offset < frameCount
        invariant 0 <= offset <= frameCount
        invariant unchanged(this) && unchanged(bitmap)
        invariant forall g: nat :: g < frameCount && g in free ==> Distance(nextHint, g, frameCount) >= offset
      {
        var frame := (nextHint + offset) % frameCount;
        ScanOrder(nextHint, offset, frameCount);
        var isFree := IsFree(frame);
        if isFree {
          Mark(frame, true);
          nextHint := frame + 1;
          TakeFromFree(old(free), outstanding, reserved, Range(0, frameCount), {frame});
          outstanding := outstanding + {frame};
          return Some(frame * PAGE_SIZE);
        }
        offset := offset + 1;
      }
      assert forall g: nat :: g < frameCount ==> Distance(nextHint, g, frameCount) < frameCount;
      return None;
    }

    /** The lowest run of `count` free frames; None exactly when there is none. */
    method AllocContiguous(count: nat) returns (r: Option<nat>)
      requires Valid()
      modifies this, bitmap
      ensures Valid() && reserved == old(reserved) && nextHint == old(nextHint)
      ensures r == None <==> count == 0 || !exists s: nat :: Run(s, count) <= old(free)
      ensures r == None ==> free == old(free) && outstanding == old(outstanding)
      ensures r.Some? ==>
                var s := r.value / PAGE_SIZE;
                && r.value == s * PAGE_SIZE && Run(s, count) <= old(free)
                && (forall t: nat :: Run(t, count) <= old(free) ==> s <= t)
                && free == old(free) - Run(s, count) && outstanding == old(outstanding) + Run(s, count)
    {
      hide Counted, Range, Partition;
      if count == 0 {
        return None;
      }
      var runLen := 0;
      var frame := 0;
      while frame < frameCount
        invariant 0 <= frame <= frameCount && 0 <= runLen <= frame && runLen < count
        invariant unchanged(this) && unchanged(bitmap)
        invariant Run(frame - runLen, runLen) <= free
        invariant frame > runLen ==> frame - runLen - 1 !in free
        invariant forall s: nat :: s + count <= frame ==> !(Run(s, count) <= free)
      {
        var isFree := IsFree(frame);
        if isFree {
          runLen := runLen + 1;
          if runLen == count {
            var start := frame + 1 - count;
            MarkRange(start, start + count, true);
            TakeFromFree(old(free), outstanding, reserved, Range(0, frameCount), Run(start, count));
            outstanding := outstanding + Run(start, count);
            return Some(start * PAGE_SIZE);
          }
          NoRun(frame + 1, count, frame - runLen, free);
        } else {
          runLen := 0;
          NoRun(frame + 1, count, frame, free);
        }
        frame := frame + 1;
      }
      forall s: nat ensures !(Run(s, count) <= free) {
        if s + count > frameCount { assert s + count - 1 in Run(s, count) && s + count - 1 !in free; }
      }
      return None;
    }

    /**
     Puts a frame into the pool, whatever it was before: nothing checks that it had been handed out, or that it is
     there. Not `ok` is the panic of an index past the bitmap. The counter stays right if and only if the frame is
     there.
     */
    method FreeFrame(phys: nat) returns (ok: bool)
      requires Valid()
      modifies this`freeFrames, this`free, this`outstanding, this`reserved, bitmap
      ensures ok <==> phys / PAGE_SIZE < 8 * bitmap.Length
      ensures !ok ==> Valid() && free == old(free) && outstanding == old(outstanding) && reserved == old(reserved)
      ensures ok ==> (Counted() <==> phys / PAGE_SIZE < frameCount)
      ensures phys / PAGE_SIZE < frameCount ==>
                && Valid() && free == old(free) + {phys / PAGE_SIZE}
                && outstanding == old(outstanding) - {phys / PAGE_SIZE}
                && reserved == old(reserved) - {phys / PAGE_SIZE}
      ensures ok && phys / PAGE_SIZE >= frameCount ==> freeFrames == |free| + 1 && free == old(free)
    {
      hide Counted, Valid, Cleared;
      ValidParts();
      var frame := phys / PAGE_SIZE;
      ok := frame < 8 * bitmap.Length;
      if ok {
        if frame < frameCount {
          ReturnFrame(frame);
          ValidParts();
        } else {
          Mark(frame, false);
        }
      }
    }

    method ReturnFrame(frame: nat)
      requires Valid() && frame < frameCount
      modifies this`freeFrames, this`free, this`outstanding, this`reserved, bitmap
      ensures Valid() && free == old(free) + {frame}
      ensures outstanding == old(outstanding) - {frame} && reserved == old(reserved) - {frame}
    {
      hide Counted, Range, Partition, Cleared;
      AllFrames(frameCount, frame);
      ReturnToFree(free, outstanding, reserved, Range(0, frameCount), frame);
      Mark(frame, false);
      outstanding, reserved := outstanding - {frame}, reserved - {frame};
    }
  }

  /** How many frames a wrap-around scan from `from` passes before it looks at `f`. */
  function Distance(from: nat, f: nat, frameCount: nat): nat
    requires from <= frameCount && f < frameCount
  {
    if f >= from then f - from else f + frameCount - from
  }

  /** The scan looks at each frame once, in order of its distance. */
  lemma ScanOrder(from: nat, offset: nat, frameCount: nat)
    requires from <= frameCount && offset < frameCount
    ensures var frame := (from + offset) % frameCount;
            frame < frameCount && Distance(from, frame, frameCount)
              == (if from == frameCount && frame == frameCount then 0 else offset)
    ensures forall g: nat :: g < frameCount && Distance(from, g, frameCount) == offset ==>
            g == (from + offset) % frameCount
  {
    if from + offset < frameCount {
      DivUnique(from + offset, frameCount, 0, from + offset);
    } else {
      DivUnique(from + offset, frameCount, 1, from + offset - frameCount);
    }
  }

  /** No run of `count` frames ends at `end` when a frame just below a shorter free stretch is taken. */
  lemma NoRun(end: nat, count: nat, taken: int, free: set<nat>)
    requires count > 0 && taken < end
    requires taken >= 0 ==> taken !in free && end - taken <= count
    requires taken < 0 ==> end < count
    ensures forall s: nat :: s + count == end ==> !(Run(s, count) <= free)
  {
    forall s: nat | s + count == end ensures !(Run(s, count) <= free) {
      if taken >= 0 { assert taken in Run(s, count); }
    }
  }

  // ---- runs ----

  datatype Request = Frame | Frames(count: nat) | Return(phys: nat)

  /** The frames that some request returns. */
  ghost function Returned(requests: seq<Request>): set<nat> {
    set i: nat | i < |requests| && requests[i].Return? :: requests[i].phys / PAGE_SIZE
  }

  lemma ReturnedMore(requests: seq<Request>, i: nat)
    requires i < |requests|
    ensures Returned(requests[..i + 1])
            == Returned(requests[..i]) + (if requests[i].Return? then {requests[i].phys / PAGE_SIZE} else {})
  {
    var most, all := requests[..i], requests[..i + 1];
    forall k: nat | k < i + 1 ensures all[k] == if k < i then most[k] else requests[i] { }
    forall f | f in Returned(most) ensures f in Returned(all) {
      var k: nat :| k < i && most[k].Return? && most[k].phys / PAGE_SIZE == f;
      assert all[k] == most[k];
    }
    if requests[i].Return? {
      assert all[i] == requests[i];
    }
  }

  /**
   Any list of requests, up to the first that returns a frame beyond the last. A reserved frame stays reserved if and
   only if none of them returned it, and one that was never returned is never handed out.
   */
  method Serve(a: BitmapAllocator, requests: seq<Request>) returns (done: nat, ghost handed: set<nat>)
    requires a.Valid()
    modifies a, a.bitmap
    ensures done <= |requests|
    ensures done < |requests| ==> requests[done].Return? && requests[done].phys / PAGE_SIZE >= a.frameCount
    ensures a.Valid() && a.reserved == old(a.reserved) - Returned(requests[..done])
    ensures handed * old(a.reserved) <= Returned(requests[..done])
    ensures a.outstanding <= old(a.outstanding) + handed
  {
    hide BitmapAllocator.Valid, BitmapAllocator.Counted, Partition, Range, Run, Returned, Distance;
    handed := {};
    done := 0;
    NoneReturned(requests);
    while done < |requests|
      invariant 0 <= done <= |requests| && a.Valid() && a.outstanding <= old(a.outstanding) + handed
      invariant a.reserved == old(a.reserved) - Returned(requests[..done])
      invariant handed * old(a.reserved) <= Returned(requests[..done])
    {
      ReturnedMore(requests, done);
      a.FreeIsNotReserved();
      match requests[done] {
        case Frame =>
          var r := a.Alloc();
          if r.Some? {
            handed := handed + {r.value / PAGE_SIZE};
          }
        case Frames(count) =>
          var r := a.AllocContiguous(count);
          if r.Some? {
            handed := handed + Run(r.value / PAGE_SIZE, count);
          }
        case Return(phys) =>
          if phys / PAGE_SIZE >= a.frameCount {
            return;
          }
          var ok := a.FreeFrame(phys);
      }
      done := done + 1;
    }
  }

  lemma NoneReturned(requests: seq<Request>)
    ensures Returned(requests[..0]) == {}
  {
  }

  // ---- building the bitmap from the memory map ----

  /** An entry of the bootloader's memory map. */
  datatype Region = Region(base: nat, length: nat, usable: bool) {
    function End(): nat { base + length }

    /** What the Limine protocol guarantees of usable entries. */
    predicate Aligned() { usable ==> base % PAGE_SIZE == 0 && length % PAGE_SIZE == 0 }
  }

  /** The first usable region that can hold the bitmap. */
  ghost predicate IsHome(entries: seq<Region>, i: nat, bytes: nat) {
    && i < |entries| && entries[i].usable && entries[i].length >= bytes
    && forall j :: 0 <= j < i && entries[j].usable ==> entries[j].length < bytes
  }

  /** The frames lying wholly inside one of the usable entries. */
  ghost predicate UsableFrame(entries: seq<Region>, f: nat) {
    exists j :: 0 <= j < |entries| && entries[j].usable && Inside(f, entries[j].base, entries[j].length)
  }

  /** `top` is the end of the last usable entry, or 0. */
  ghost predicate IsTop(entries: seq<Region>, top: nat) {
    && (forall j :: 0 <= j < |entries| && entries[j].usable ==> entries[j].End() <= top)
    && (top == 0 || exists j :: 0 <= j < |entries| && entries[j].usable && entries[j].End() == top)
  }

  method FindTop(entries: seq<Region>) returns (top: nat)
    ensures IsTop(entries, top)
  {
    top := 0;
    for i := 0 to |entries|
      invariant IsTop(entries[..i], top)
    {
      assert entries[..i + 1] == entries[..i] + [entries[i]];
      if entries[i].usable && entries[i].End() > top {
        top := entries[i].End();
        assert entries[..i + 1][i].End() == top;
      } else if top != 0 {
        var j :| 0 <= j < i && entries[..i][j].usable && entries[..i][j].End() == top;
        assert entries[..i + 1][j].End() == top;
      }
    }
    assert entries[..|entries|] == entries;
  }

  method FindHome(entries: seq<Region>, bytes: nat) returns (home: Option<nat>)
    ensures home.Some? ==> exists i: nat :: IsHome(entries, i, bytes) && home.value == entries[i].base
    ensures home.None? <==> forall i :: 0 <= i < |entries| && entries[i].usable ==> entries[i].length < bytes
  {
    for i := 0 to |entries|
      invariant forall j :: 0 <= j < i && entries[j].usable ==> entries[j].length < bytes
    {
      if entries[i].usable && entries[i].length >= bytes {
        assert IsHome(entries, i, bytes);
        return Some(entries[i].base);
      }
    }
    return None;
  }

  function BitmapBytes(top: nat): nat { CeilDiv(top / PAGE_SIZE, 8) }

  /** The frames that freeing the usable entries frees. */
  ghost predicate FreedFrame(entries: seq<Region>, f: nat) {
    exists j :: 0 <= j < |entries| && entries[j].usable && f in FreedBy(entries[j].base, entries[j].length)
  }

  lemma FreeEntry(entries: seq<Region>, i: nat, f: nat)
    requires i < |entries|
    ensures FreedFrame(entries[..i + 1], f)
            <==> FreedFrame(entries[..i], f) || (entries[i].usable && f in FreedBy(entries[i].base, entries[i].length))
  {
    hide FreedBy;
    var now, before := entries[..i + 1], entries[..i];
    if FreedFrame(before, f) {
      var j :| 0 <= j < i && before[j].usable && f in FreedBy(before[j].base, before[j].length);
      assert now[j] == before[j];
    }
    if entries[i].usable && f in FreedBy(entries[i].base, entries[i].length) {
      assert now[i] == entries[i];
    }
  }

  /** Usable regions end at most one partial frame past the last whole one. */
  lemma EntryFits(entries: seq<Region>, i: nat, bytes: nat, top: nat)
    requires IsTop(entries, top) && i < |entries| && entries[i].usable && bytes <= entries[i].length
    ensures entries[i].End() / PAGE_SIZE <= top / PAGE_SIZE
    ensures entries[i].Aligned() ==> CeilDiv(entries[i].base + bytes, PAGE_SIZE) <= top / PAGE_SIZE
  {
    assert entries[i].base + bytes <= entries[i].End();
  }

  /** Frees the usable entries in a bitmap that starts out all used. */
  method FreeUsable(a: BitmapAllocator, entries: seq<Region>, ghost top: nat)
    requires IsTop(entries, top) && a.frameCount == top / PAGE_SIZE && a.Counted() && a.free == {}
    modifies a`freeFrames, a`free, a.bitmap
    ensures a.Counted()
    ensures forall f: nat :: f in a.free <==> FreedFrame(entries, f)
  {
    assert forall f: nat :: !FreedFrame(entries[..0], f);
    hide FreedFrame, FreedBy, BitmapAllocator.Counted, IsTop;
    for i := 0 to |entries|
      invariant a.Counted()
      invariant forall f: nat :: f in a.free <==> FreedFrame(entries[..i], f)
    {
      forall f: nat { FreeEntry(entries, i, f); }
      if entries[i].usable {
        EntryFits(entries, i, 0, top);
        a.MarkRangeFree(entries[i].base, entries[i].length);
      }
    }
    assert entries[..|entries|] == entries;
  }

  /** How `init` ends: with an allocator, or in one of its two panics. */
  datatype Started =
    | Ready(allocator: BitmapAllocator)
    | NoHome // no usable region can hold the bitmap
    | PastBitmap // taking the bitmap's own frames indexes past its end

  /**
   Builds the allocator. Exactly the frames that freeing the usable entries frees and taking the bitmap does not take
   start out free; the others are reserved.
   */
  method Init(entries: seq<Region>) returns (r: Started, ghost top: nat, ghost home: nat)
    ensures IsTop(entries, top)
    ensures r.NoHome? <==> forall i :: 0 <= i < |entries| && entries[i].usable ==> entries[i].length < BitmapBytes(top)
    ensures !r.NoHome? ==>
              && (exists i: nat :: IsHome(entries, i, BitmapBytes(top)) && home == entries[i].base)
              && (r.PastBitmap? <==> CeilDiv(home + BitmapBytes(top), PAGE_SIZE) > 8 * BitmapBytes(top))
    ensures r.Ready? ==>
              var a := r.allocator;
              && fresh(a) && fresh(a.bitmap) && a.Valid() && a.outstanding == {} && a.frameCount == top / PAGE_SIZE
              && forall f: nat :: f in a.free <==> FreedFrame(entries, f) && f !in TakenBy(home, BitmapBytes(top))
  {
    hide FreedFrame, FreedBy, TakenBy, BitmapAllocator.Counted, BitmapAllocator.Valid, IsTop, IsHome, Range, CeilDiv;
    var end := FindTop(entries);
    top := end;
    var found := FindHome(entries, BitmapBytes(end));
    if found.None? {
      return NoHome, end, 0;
    }
    home := found.value;
    var a := new BitmapAllocator(end / PAGE_SIZE);
    FreeUsable(a, entries, end);
    if CeilDiv(found.value + BitmapBytes(end), PAGE_SIZE) > 8 * BitmapBytes(end) {
      return PastBitmap, end, found.value;
    }
    a.MarkRangeUsed(found.value, BitmapBytes(end));
    a.Reserve();
    r := Ready(a);
  }

  /**
   On the entries the Limine protocol allows, exactly the frames lying wholly in one usable entry are freed and exactly
   those that share a byte with the bitmap are taken, none of them past its end.
   */
  lemma AlignedMap(entries: seq<Region>, top: nat, i: nat, f: nat)
    requires forall j :: 0 <= j < |entries| ==> entries[j].Aligned()
    requires IsTop(entries, top) && IsHome(entries, i, BitmapBytes(top))
    ensures FreedFrame(entries, f) <==> UsableFrame(entries, f)
    ensures f in TakenBy(entries[i].base, BitmapBytes(top)) <==> Touches(f, entries[i].base, BitmapBytes(top))
    ensures CeilDiv(entries[i].base + BitmapBytes(top), PAGE_SIZE) <= 8 * BitmapBytes(top)
  {
    EntryFits(entries, i, BitmapBytes(top), top);
    assert entries[i].base % PAGE_SIZE == 0;
    forall j | 0 <= j < |entries| && entries[j].usable
      ensures f in FreedBy(entries[j].base, entries[j].length) <==> Inside(f, entries[j].base, entries[j].length)
    {
      assert entries[j].Aligned();
      FreedFramesLieInside(entries[j].base, entries[j].length);
    }
  }

  /** A usable entry that starts inside the only frame of memory makes `init` index an empty bitmap. */
  lemma UnalignedMapCanPanic()
    ensures var entries := [Region(1, 4094, true)];
            IsTop(entries, 4095) && IsHome(entries, 0, BitmapBytes(4095))
            && CeilDiv(1 + BitmapBytes(4095), PAGE_SIZE) > 8 * BitmapBytes(4095)
  {
    var entries := [Region(1, 4094, true)];
    assert entries[0].usable && entries[0].End() == 4095;
  }
}
