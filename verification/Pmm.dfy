/** The physical frame allocator of `src/pmm.c`: a bitmap of bytes, its counters and the search hint. */
module Pmm {
  import opened Bytes
  import opened Frames

  class Allocator {
    var bitmap: array?<uint8>
    var maxPhys: nat
    var frameCount: nat
    var freeFrames: nat
    var usedFrames: nat
    var reservedFrames: nat
    var nextHint: nat
    var initialized: bool

    predicate Test(f: nat)
      requires bitmap != null && f < 8 * bitmap.Length
      reads this`bitmap, bitmap
    {
      Bit(bitmap[f / 8] as int, f % 8)
    }

    /** The bits and counters are those of `s`; used and free frames add up to all frames. */
    ghost predicate Shows(s: Frames)
      reads this, bitmap
    {
      && bitmap != null && frameCount == |s.used| <= 8 * bitmap.Length && maxPhys == frameCount * PAGE
      && freeFrames == s.free && usedFrames + freeFrames == frameCount && nextHint == s.hint
      && (forall f :: 0 <= f < frameCount ==> Test(f) == s.used[f])
    }

    constructor ()
      ensures !initialized
    {
      bitmap, maxPhys, frameCount, freeFrames, usedFrames := null, 0, 0, 0, 0;
      reservedFrames, nextHint, initialized := 0, 0, false;
    }

    /** `bitmap_set` and `bitmap_clear`. */
    method Put(f: nat, on: bool)
      requires bitmap != null && f < 8 * bitmap.Length
      modifies bitmap
      ensures forall g :: 0 <= g < 8 * bitmap.Length ==> Test(g) == if g == f then on else old(Test(g))
    {
      var b := bitmap[f / 8] as int;
      assert Pow2(8) == 256;
      WithBitRange(b, f % 8, on, 8);
      bitmap[f / 8] := WithBit(b, f % 8, on) as uint8;
      forall g | 0 <= g < 8 * bitmap.Length
        ensures Test(g) == if g == f then on else old(Test(g))
      {
        WithBitAt(b, f % 8, on, g % 8);
      }
    }

    /** `mark_frame_free`. */
    method MarkFrameFree(f: nat, ghost s: Frames)
      requires Shows(s) && Counted(s)
      modifies this`freeFrames, this`usedFrames, this`nextHint, bitmap
      ensures Shows(FreeFrame(s, f))
    {
      hide Bit, CountFree;
      if f >= frameCount {
        return;
      }
      if Test(f) {
        CountUpdate(s.used, f, false);
        Put(f, false);
        freeFrames := freeFrames + 1;
        if usedFrames > 0 {
          usedFrames := usedFrames - 1;
        }
        if f < nextHint {
          nextHint := f;
        }
      }
    }

    /** `mark_frame_used`. */
    method MarkFrameUsed(f: nat, ghost s: Frames)
      requires Shows(s) && Counted(s)
      modifies this`freeFrames, this`usedFrames, bitmap
      ensures Shows(UseFrame(s, f))
      ensures freeFrames == old(freeFrames) - if f < |s.used| && !s.used[f] then 1 else 0
    {
      hide Bit, CountFree;
      if f >= frameCount {
        return;
      }
      if !Test(f) {
        CountUpdate(s.used, f, true);
        NoneFree(s.used);
        Put(f, true);
        if freeFrames > 0 {
          freeFrames := freeFrames - 1;
        }
        usedFrames := usedFrames + 1;
      }
    }

    /** The loop of `mark_range_free`, over whole pages. */
    method ClearFrames(start: nat, stop: nat, ghost s: Frames)
      requires Shows(s) && Core(s) && start <= stop <= maxPhys && start % PAGE == stop % PAGE == 0
      modifies this`freeFrames, this`usedFrames, this`nextHint, bitmap
      ensures Shows(FreeRange(s, start / PAGE, stop / PAGE))
    {
      hide CountFree, FreeFrame, Bit;
      var addr := start;
      while addr < stop
        invariant start <= addr <= stop && addr % PAGE == 0
        invariant Shows(FreeRange(s, start / PAGE, addr / PAGE))
      {
        FreeRangeIs(s, start / PAGE, addr / PAGE);
        MarkFrameFree(addr / PAGE, FreeRange(s, start / PAGE, addr / PAGE));
        addr := addr + PAGE;
      }
    }

    /** `mark_range_free`. */
    method MarkRangeFree(base: Address, length: Address, ghost s: Frames)
      requires Shows(s) && Core(s)
      modifies this`freeFrames, this`usedFrames, this`nextHint, bitmap
      ensures var span := FreedSpan(Region(base, length, true), |s.used|);
              Shows(FreeRange(s, span.0, span.1))
    {
      hide CountFree, FreeFrame;
      if length == 0 || WORD - 1 - base < length {
        return;
      }
      var end := base + length;
      var start := AlignUp(base);
      var stop := AlignDown(end);
      if stop <= start {
        return;
      }
      if start >= maxPhys {
        return;
      }
      if stop > maxPhys {
        stop := maxPhys;
      }
      ClearFrames(start, stop, s);
    }

    /** The loop of `mark_range_used`, over whole pages. */
    method SetFrames(start: nat, stop: nat, ghost s: Frames)
      requires Shows(s) && Core(s) && start <= stop <= maxPhys && start % PAGE == stop % PAGE == 0
      modifies this`freeFrames, this`usedFrames, this`reservedFrames, bitmap
      ensures Shows(UseRange(s, start / PAGE, stop / PAGE))
      ensures reservedFrames + freeFrames == old(reservedFrames) + old(freeFrames)
    {
      hide CountFree, UseFrame, Bit;
      var addr := start;
      while addr < stop
        invariant start <= addr <= stop && addr % PAGE == 0
        invariant Shows(UseRange(s, start / PAGE, addr / PAGE))
        invariant reservedFrames + freeFrames == old(reservedFrames) + old(freeFrames)
      {
        ghost var t := UseRange(s, start / PAGE, addr / PAGE);
        UseRangeIs(s, start / PAGE, addr / PAGE);
        var wasFree := !Test(addr / PAGE);
        MarkFrameUsed(addr / PAGE, t);
        if wasFree {
          reservedFrames := reservedFrames + 1;
        }
        addr := addr + PAGE;
      }
    }

    /** `mark_range_used`; the frames it takes away from the free ones are counted as reserved. */
    method MarkRangeUsed(base: Address, length: Address, ghost s: Frames)
      requires Shows(s) && Core(s)
      modifies this`freeFrames, this`usedFrames, this`reservedFrames, bitmap
      ensures var span := TakenSpan(Region(base, length, false), |s.used|);
              Shows(UseRange(s, span.0, span.1))
      ensures reservedFrames + freeFrames == old(reservedFrames) + old(freeFrames)
    {
      hide CountFree, UseFrame, Bit;
      if length == 0 || WORD - 1 - base < length {
        return;
      }
      var end := base + length;
      var start := AlignDown(base);
      var stop := AlignUp(end);
      if stop <= start {
        return;
      }
      if start >= maxPhys {
        return;
      }
      if stop > maxPhys {
        stop := maxPhys;
      }
      SetFrames(start, stop, s);
    }

    /** `pmm_init_from_map`; the storage may be larger than the bitmap needs. */
    method InitFromMap(regions: seq<Region>, storage: array?<uint8>, maxPhysBytes: Address) returns (ok: bool)
      modifies this, storage
      ensures ok <==> && regions != [] && storage != null && maxPhysBytes != 0 && maxPhysBytes % PAGE == 0
                      && storage.Length >= (maxPhysBytes / PAGE + 7) / 8
      ensures if ok then initialized && bitmap == storage && Shows(FromMap(regions, maxPhysBytes / PAGE))
              else unchanged(this) && (storage != null ==> unchanged(storage))
    {
      hide CountFree, Bit, FreedSpan, TakenSpan, UseRange, FreeRange, Core;
      if storage == null || |regions| == 0 {
        return false;
      }
      if maxPhysBytes == 0 || maxPhysBytes % PAGE != 0 {
        return false;
      }
      var frames := maxPhysBytes / PAGE;
      var required := (frames + 7) / 8;
      if storage.Length < required {
        return false;
      }
      bitmap, maxPhys, frameCount, freeFrames := storage, maxPhysBytes, frames, 0;
      usedFrames, reservedFrames, nextHint, initialized := frames, 0, 0, false;
      FillOnes(required);
      ghost var blank := Frames(seq(frames, _ => true), 0, 0);
      BlankCore(blank.used);
      for i := 0 to |regions|
        invariant Shows(FreeAll(blank, regions[..i])) && bitmap == storage
      {
        FreeAllIs(blank, regions[..i]);
        assert regions[..i + 1][..i] == regions[..i];
        if regions[i].usable {
          MarkRangeFree(regions[i].base, regions[i].length, FreeAll(blank, regions[..i]));
        }
      }
      assert regions[..|regions|] == regions;
      FreeAllIs(blank, regions);
      MarkRangeUsed(0, PAGE, FreeAll(blank, regions));
      FirstFrame(frames);
      ghost var s := UseRange(FreeAll(blank, regions), 0, 1);
      UseRangeIs(FreeAll(blank, regions), 0, 1);
      for i := 0 to |regions|
        invariant Shows(TakeAll(s, regions[..i])) && bitmap == storage
      {
        TakeAllIs(s, regions[..i]);
        assert regions[..i + 1][..i] == regions[..i];
        if !regions[i].usable {
          MarkRangeUsed(regions[i].base, regions[i].length, TakeAll(s, regions[..i]));
        }
      }
      initialized := true;
      ok := true;
    }

    lemma FirstFrame(n: nat)
      requires n > 0
      ensures TakenSpan(Region(0, PAGE, false), n) == (0, 1)
    {
    }

    method FillOnes(required: nat)
      requires bitmap != null && required <= bitmap.Length
      modifies bitmap
      ensures forall f :: 0 <= f < 8 * required ==> Test(f)
    {
      for i := 0 to required
        invariant forall j :: 0 <= j < i ==> bitmap[j] == 0xff
      {
        bitmap[i] := 0xff;
      }
      assert Pow2(8) == 256;
      forall f | 0 <= f < 8 * required
        ensures Test(f)
      {
        AllOnes(8, f % 8);
      }
    }

    lemma {:induction false} AllOnes(width: nat, k: nat)
      requires k < width
      ensures Bit(Pow2(width) - 1, k)
    {
      if k > 0 {
        AllOnes(width - 1, k - 1);
      }
    }

    /** The search loop of `pmm_alloc_frame`. */
    method Search(lo: nat, hi: nat, ghost s: Frames) returns (f: nat)
      requires Shows(s) && lo <= hi <= frameCount
      ensures f == FirstFree(s.used, lo, hi)
    {
      hide Bit;
      f := lo;
      while f < hi
        invariant lo <= f <= hi && FirstFree(s.used, lo, hi) == FirstFree(s.used, f, hi)
      {
        if !Test(f) {
          return;
        }
        f := f + 1;
      }
    }

    /** `pmm_alloc_frame`. */
    method AllocFrame(ghost s: Frames) returns (a: nat)
      requires initialized ==> Shows(s) && Counted(s)
      modifies this`freeFrames, this`usedFrames, this`nextHint, bitmap
      ensures if initialized then Shows(Alloc(s).0) && a == Alloc(s).1
              else a == INVALID_FRAME && unchanged(this) && (bitmap != null ==> unchanged(bitmap))
    {
      hide Bit, CountFree, FirstFree, UseFrame;
      if !initialized || freeFrames == 0 {
        return INVALID_FRAME;
      }
      var f := Search(nextHint, frameCount, s);
      if f < frameCount {
        MarkFrameUsed(f, s);
        nextHint := f + 1;
        return f * PAGE;
      }
      f := Search(0, nextHint, s);
      if f < nextHint {
        MarkFrameUsed(f, s);
        nextHint := f + 1;
        return f * PAGE;
      }
      return INVALID_FRAME;
    }

    /** `pmm_free_frame`. */
    method ReleaseFrame(a: Address, ghost s: Frames) returns (ok: bool)
      requires initialized ==> Shows(s) && Counted(s)
      modifies this`freeFrames, this`usedFrames, this`nextHint, bitmap
      ensures if initialized then Shows(Free(s, a).0) && ok == Free(s, a).1
              else !ok && unchanged(this) && (bitmap != null ==> unchanged(bitmap))
    {
      hide Bit, CountFree;
      if !initialized {
        return false;
      }
      if a % PAGE != 0 || a == 0 || a >= maxPhys {
        return false;
      }
      var f := a / PAGE;
      if !Test(f) {
        return false;
      }
      MarkFrameFree(f, s);
      return true;
    }

    /** `pmm_reserve_range`. */
    method ReserveRange(base: Address, length: Address, ghost s: Frames) returns (ok: bool)
      requires initialized ==> Shows(s) && Core(s)
      modifies this`freeFrames, this`usedFrames, this`reservedFrames, bitmap
      ensures if initialized then Shows(Reserve(s, base, length).0) && ok == Reserve(s, base, length).1
              else !ok && unchanged(this) && (bitmap != null ==> unchanged(bitmap))
    {
      if !initialized || length == 0 {
        return false;
      }
      MarkRangeUsed(base, length, s);
      return true;
    }

    /** `pmm_is_frame_free`. */
    method IsFrameFree(a: Address, ghost s: Frames) returns (free: bool)
      requires initialized ==> Shows(s)
      ensures free <==> initialized && a % PAGE == 0 && a / PAGE < |s.used| && !s.used[a / PAGE]
    {
      if !initialized {
        return false;
      }
      if a % PAGE != 0 || a >= maxPhys {
        return false;
      }
      return !Test(a / PAGE);
    }
  }
}
