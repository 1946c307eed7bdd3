/** The physical frame allocator (src/pmm.c): a byte bitmap, a set bit meaning an
    allocated frame, and a cached count of the free frames. */
module Pmm {
  import opened Basics
  import opened Frames

  /** `1u << k` as the source uses it to pick one bit of a byte. */
  function Mask(k: nat): bv8
    requires k < 8
  {
    if k == 0 then 0x01 else if k == 1 then 0x02 else if k == 2 then 0x04 else if k == 3 then 0x08
    else if k == 4 then 0x10 else if k == 5 then 0x20 else if k == 6 then 0x40 else 0x80
  }

  lemma MaskIsShift(k: nat)
    requires k < 8
    ensures Mask(k) == (1 as bv8) << k
  {
  }

  predicate Bit(byte: bv8, k: nat)
    requires k < 8
  {
    byte & Mask(k) != 0
  }

  lemma SetOneBit(byte: bv8, k: nat, j: nat)
    requires k < 8 && j < 8
    ensures Bit(byte | Mask(k), j) <==> Bit(byte, j) || j == k
  {
  }

  lemma ClearOneBit(byte: bv8, k: nat, j: nat)
    requires k < 8 && j < 8
    ensures Bit(byte & !Mask(k), j) <==> Bit(byte, j) && j != k
  {
  }

  class FrameAllocator {
    const bitmap: array<bv8>
    var totalFrames: nat
    var freeFrames: nat
    /** The frames whose bit is clear. */
    ghost var free: set<nat>

    predicate BitAt(frame: nat)
      requires bitmap.Length == MAX_FRAMES / 8 && frame < MAX_FRAMES
      reads bitmap
    {
      Bit(bitmap[frame / 8], frame % 8)
    }

    /** The bitmap represents `free`. */
    ghost predicate Represents()
      reads this, bitmap
    {
      && bitmap.Length == MAX_FRAMES / 8
      && (forall f :: f in free ==> f < MAX_FRAMES)
      && (forall f: nat {:trigger BitAt(f)} :: f < MAX_FRAMES ==> (BitAt(f) <==> f !in free))
    }

    ghost predicate Valid()
      reads this, bitmap
    {
      Represents() && freeFrames == |free|
    }

    constructor ()
      ensures Valid() && free == {} && fresh(bitmap)
    {
      bitmap := new bv8[MAX_FRAMES / 8](_ => 0xFF);
      totalFrames, freeFrames, free := 0, 0, {};
    }

    method BitSet(frame: nat)
      requires Represents() && frame < MAX_FRAMES
      modifies bitmap, `free
      ensures Represents() && free == old(free) - {frame}
    {
      hide Mask, Bit;
      MaskIsShift(frame % 8);
      bitmap[frame / 8] := bitmap[frame / 8] | ((1 as bv8) << (frame % 8));
      free := free - {frame};
      forall f: nat | f < MAX_FRAMES ensures BitAt(f) <==> f !in free {
        assert old(BitAt(f)) <==> f !in old(free);
        if f / 8 == frame / 8 {
          SetOneBit(old(bitmap[frame / 8]), frame % 8, f % 8);
          assert f == frame <==> f % 8 == frame % 8;
        }
      }
    }

    method BitClear(frame: nat)
      requires Represents() && frame < MAX_FRAMES
      modifies bitmap, `free
      ensures Represents() && free == old(free) + {frame}
    {
      hide Mask, Bit;
      MaskIsShift(frame % 8);
      bitmap[frame / 8] := bitmap[frame / 8] & !((1 as bv8) << (frame % 8));
      free := free + {frame};
      forall f: nat | f < MAX_FRAMES ensures BitAt(f) <==> f !in free {
        assert old(BitAt(f)) <==> f !in old(free);
        if f / 8 == frame / 8 {
          ClearOneBit(old(bitmap[frame / 8]), frame % 8, f % 8);
          assert f == frame <==> f % 8 == frame % 8;
        }
      }
    }

    method BitTest(frame: nat) returns (taken: bool)
      requires Represents() && frame < MAX_FRAMES
      ensures taken <==> frame !in free
    {
      MaskIsShift(frame % 8);
      taken := bitmap[frame / 8] & ((1 as bv8) << (frame % 8)) != 0;
      assert taken == BitAt(frame);
    }

    /** The body of the reserving loop. */
    method ReserveFrame(frame: nat)
      requires Valid() && frame < MAX_FRAMES
      modifies bitmap, `free, `freeFrames
      ensures Valid() && free == old(free) - {frame}
    {
      var taken := BitTest(frame);
      if !taken {
        assert free == (free - {frame}) + {frame};
        BitSet(frame);
        freeFrames := freeFrames - 1;
      }
    }

    /** The body of the freeing loops. */
    method ReleaseFrame(frame: nat)
      requires Valid() && frame < MAX_FRAMES
      modifies bitmap, `free, `freeFrames
      ensures Valid() && free == old(free) + {frame}
    {
      var taken := BitTest(frame);
      if taken {
        BitClear(frame);
        freeFrames := freeFrames + 1;
      }
    }

    method ReserveRange(base: u64, length: u64)
      requires Valid()
      modifies bitmap, `free, `freeFrames
      ensures Valid()
      ensures free == old(free) - ReservedBy(base, length)
    {
      var start, end := PageDown(base), PageUp(Add64(base, length));
      if start >= MAX_MEMORY {
        return;
      }
      if end > MAX_MEMORY {
        end := MAX_MEMORY;
      }
      var addr := start;
      ghost var first, next := start / 4096, start / 4096;
      while addr < end
        invariant Valid()
        invariant addr == next * 4096 && first <= next && (addr <= end || next == first)
        invariant forall f :: f in free <==> f in old(free) && !(first <= f < next)
      {
        var frame := addr / 4096;
        assert frame == next;
        ReserveFrame(frame);
        addr, next := addr + 4096, next + 1;
      }
      assert free == old(free) - ReservedBy(base, length);
    }

    method FreeRange(base: u64, length: u64)
      requires Valid()
      modifies bitmap, `free, `freeFrames
      ensures Valid()
      ensures free == old(free) + FreedBy(base, length)
    {
      var start, end := PageUp(base), PageDown(Add64(base, length));
      if start >= end || start >= MAX_MEMORY {
        return;
      }
      if end > MAX_MEMORY {
        end := MAX_MEMORY;
      }
      var addr := start;
      ghost var first, next := start / 4096, start / 4096;
      while addr < end
        invariant Valid()
        invariant addr == next * 4096 && first <= next && addr <= end
        invariant forall f :: f in free <==> f in old(free) || first <= f < next
      {
        var frame := addr / 4096;
        assert frame == next;
        ReleaseFrame(frame);
        addr, next := addr + 4096, next + 1;
      }
      assert free == old(free) + Span(PageUp(base) / 4096, PageDown(Add64(base, length)) / 4096);
    }

    method Init(info: BootInfo)
      requires bitmap.Length == MAX_FRAMES / 8 && |info.entries| < 0x1_0000_0000
      modifies this, bitmap
      ensures Valid() && totalFrames == MAX_FRAMES
      ensures free == InitialFree(info)
    {
      MarkEverything();
      totalFrames := MAX_FRAMES;
      ReleaseEntries(info.entries);
      var ranges := ReservedRanges(info);
      ReserveAll(ranges);
    }

    /** Sets every bit. */
    method MarkEverything()
      requires bitmap.Length == MAX_FRAMES / 8
      modifies bitmap, `free, `freeFrames
      ensures Valid() && free == {}
    {
      forall k | 0 <= k < bitmap.Length {
        bitmap[k] := 0xFF;
      }
      freeFrames, free := 0, {};
    }

    /** The loop over the memory map. */
    method ReleaseEntries(entries: seq<MapEntry>)
      requires Valid() && free == {}
      modifies bitmap, `free, `freeFrames
      ensures Valid() && free == Released(entries)
    {
      for i := 0 to |entries|
        invariant Valid() && free == Released(entries[..i])
      {
        assert entries[..i + 1][..i] == entries[..i];
        if entries[i].kind == USABLE {
          FreeRange(entries[i].base, entries[i].length);
        }
      }
      assert entries[..|entries|] == entries;
    }

    /** The reservations at the end of initialization, one after the other. */
    method ReserveAll(ranges: seq<Range>)
      requires Valid()
      modifies bitmap, `free, `freeFrames
      ensures Valid() && free == old(free) - Reserved(ranges)
    {
      for i := 0 to |ranges|
        invariant Valid() && free == old(free) - Reserved(ranges[..i])
      {
        ReserveNext(old(free), ranges, i);
        ReserveRange(ranges[i].base, ranges[i].length);
      }
      assert ranges[..|ranges|] == ranges;
    }

    /** Returns the address of the lowest run of `count` free frames, now marked; 0
        when there is none. */
    method AllocFrames(count: nat) returns (ptr: nat)
      requires Valid()
      modifies bitmap, `free, `freeFrames
      ensures Valid()
      ensures (free, ptr) == Take(old(free), count)
    {
      if count == 0 || count > MAX_FRAMES {
        return 0;
      }
      var runStart, runLength := 0, 0;
      for frame := 0 to MAX_FRAMES
        invariant Valid() && free == old(free)
        invariant runLength < count && runLength <= frame
        invariant runLength > 0 ==> runStart == frame - runLength
        invariant forall f :: frame - runLength <= f < frame ==> f in free
        invariant runLength < frame ==> frame - runLength - 1 !in free
        invariant forall s :: 0 <= s && s + count <= frame ==> !RunFree(free, s, count)
      {
        var taken := BitTest(frame);
        if !taken {
          if runLength == 0 {
            runStart := frame;
          }
          runLength := runLength + 1;
          if runLength == count {
            FirstRunIs(free, count, runStart);
            MarkRun(runStart, count);
            return runStart * 4096;
          }
        } else {
          runLength := 0;
        }
        forall s | 0 <= s && s + count <= frame + 1 ensures !RunFree(free, s, count) {
          if s + count == frame + 1 {
            assert s <= frame - runLength < s + count;
          }
        }
      }
      return 0;
    }

    /** The marking loop of the allocation. */
    method MarkRun(start: nat, count: nat)
      requires Valid() && RunFree(free, start, count)
      modifies bitmap, `free, `freeFrames
      ensures Valid()
      ensures free == old(free) - Run(start, count)
    {
      for i := 0 to count
        invariant Represents()
        invariant freeFrames == old(freeFrames)
        invariant forall f :: f in free <==> f in old(free) && !(start <= f < start + i)
      {
        BitSet(start + i);
      }
      assert old(free) == free + Run(start, count);
      freeFrames := freeFrames - count;
    }

    method FreeFrames(ptr: nat, count: nat)
      requires Valid()
      modifies bitmap, `free, `freeFrames
      ensures Valid()
      ensures free == Give(old(free), ptr, count)
    {
      if ptr == 0 || count == 0 {
        return;
      }
      var frame := ptr / 4096;
      if frame >= MAX_FRAMES {
        return;
      }
      var i := 0;
      while i < count
        invariant i <= count
        invariant Valid()
        invariant forall f :: f in free <==> f in old(free) || frame <= f < frame + i
        invariant frame + i <= MAX_FRAMES
        invariant forall f :: frame <= f < frame + i ==> f !in old(free)
      {
        var current := frame + i;
        if current >= MAX_FRAMES {
          break;
        }
        var taken := BitTest(current);
        if !taken {
          break;
        }
        ReleaseFrame(current);
        i := i + 1;
      }
      GiveIs(old(free), free, ptr, count, i);
    }
  }

  /** The freeing loop stopped after n frames, for one of its three reasons. */
  lemma GiveIs(before: set<nat>, after: set<nat>, ptr: nat, count: nat, n: nat)
    requires ptr != 0 && n <= count
    requires n == 0 || ptr / 4096 + n <= MAX_FRAMES
    requires forall f :: ptr / 4096 <= f < ptr / 4096 + n ==> f !in before
    requires n == count || ptr / 4096 + n >= MAX_FRAMES || ptr / 4096 + n in before
    requires forall f :: f in after <==> f in before || ptr / 4096 <= f < ptr / 4096 + n
    ensures after == Give(before, ptr, count)
  {
    var frame := ptr / 4096;
    var m := AllocatedPrefix(before, frame, count);
    assert m < n ==> frame + m !in before;
    assert n < m ==> frame + n !in before;
  }

  lemma ReserveNext(before: set<nat>, ranges: seq<Range>, k: nat)
    requires k < |ranges|
    ensures before - Reserved(ranges[..k]) - ReservedBy(ranges[k].base, ranges[k].length)
         == before - Reserved(ranges[..k + 1])
    ensures k == 0 ==> before - Reserved(ranges[..k]) == before
  {
    assert ranges[..k + 1][..k] == ranges[..k];
  }

  lemma FirstRunIs(free: set<nat>, count: nat, start: nat)
    requires RunFree(free, start, count)
    requires forall s :: 0 <= s < start ==> !RunFree(free, s, count)
    ensures FirstRun(free, count) == Some(start)
  {
  }
}
