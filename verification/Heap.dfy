/** The heap allocator (src/heap.c) as it is: linked block headers updated in place. */
module Heap {
  import opened Basics
  import opened Blocks
  import opened HeapModel
  import opened HeapInvariant
  import Frames
  import Pmm

  /** A block header in memory. A header that coalescing drops from the list keeps
      its fields, as the bytes in memory do. */
  class Header {
    const addr: nat
    var size: nat
    var next: Header?
    var free: bool

    constructor (addr: nat, size: nat, next: Header?)
      ensures this.addr == addr && this.size == size && this.next == next && free
    {
      this.addr, this.size, this.next, this.free := addr, size, next, true;
    }

    ghost function Value(): Block
      reads this
    {
      Block(addr, size, free)
    }
  }

  class HeapAllocator {
    const pmm: Pmm.FrameAllocator
    var head: Header?
    var totalBytes: nat
    var usedBytes: int
    /** The headers that the links from `head` visit, and what the heap has obtained. */
    ghost var list: seq<Header>
    ghost var view: seq<Block>
    ghost var owned: set<nat>
    ghost var expansions: nat

    /** The links visit `list`, whose headers read as `view`. */
    ghost predicate Linked()
      reads `head, `list, `view, list
    {
      && |view| == |list|
      && (forall i :: 0 <= i < |list| ==> view[i] == list[i].Value())
      && (forall i, j :: 0 <= i < j < |list| ==> list[i] != list[j])
      && head == (if list == [] then null else list[0])
      && (forall i {:trigger list[i].next} :: 0 <= i < |list| ==> list[i].next == if i + 1 < |list| then list[i + 1] else null)
    }

    ghost function State(): Memory
      reads this, list, pmm
    {
      Memory(view, totalBytes, usedBytes, owned, pmm.free, expansions)
    }

    ghost predicate Valid()
      reads this, list, pmm, pmm.bitmap
    {
      Linked() && pmm.Valid() && Structured(State())
    }

    constructor (pmm: Pmm.FrameAllocator)
      requires pmm.Valid()
      ensures Valid() && this.pmm == pmm
      ensures State() == Memory([], 0, 0, {}, pmm.free, 0)
    {
      this.pmm := pmm;
      head, totalBytes, usedBytes := null, 0, 0;
      list, view, owned, expansions := [], [], {}, 0;
    }

    method AppendBlock(block: Header)
      requires Linked() && block !in list && block.next == null
      modifies this`head, this`list, this`view, list, block
      ensures Linked()
      ensures view == Insert(old(view), old(block.Value()))
      ensures var k := Below(old(view), block.addr);
              list == old(list)[..k] + [block] + old(list)[k..]
      ensures block in list && forall h :: h in list ==> h in old(list) || h == block
    {
      if head == null {
        head := block;
        list, view := [block], [block.Value()];
        return;
      }
      var prev, current, k := FindPlace(block.addr);
      LinkBetween(prev, block, current, k);
    }

    /** The walk to the place of an address: the last header below it and the next. */
    method FindPlace(target: nat) returns (prev: Header?, current: Header?, ghost k: nat)
      requires Linked()
      ensures k == Below(view, target)
      ensures current == if k < |list| then list[k] else null
      ensures prev == if k > 0 then list[k - 1] else null
    {
      current, prev, k := head, null, 0;
      while current != null && current.addr < target
        invariant 0 <= k <= |list|
        invariant current == if k < |list| then list[k] else null
        invariant prev == if k > 0 then list[k - 1] else null
        invariant forall j :: 0 <= j < k ==> view[j].addr < target
        decreases |list| - k
      {
        prev := current;
        current := current.next;
        k := k + 1;
      }
      BelowIs(view, target, k);
    }

    /** The relinking at the end of the insertion. */
    method LinkBetween(prev: Header?, block: Header, current: Header?, ghost k: nat)
      requires Linked() && block !in list && k <= |list|
      requires current == if k < |list| then list[k] else null
      requires prev == if k > 0 then list[k - 1] else null
      modifies this`head, this`list, this`view, if prev == null then {} else {prev}, block
      ensures Linked()
      ensures list == old(list)[..k] + [block] + old(list)[k..]
      ensures view == old(view)[..k] + [old(block.Value())] + old(view)[k..]
    {
      ghost var l := list;
      block.next := current;
      if prev == null {
        head := block;
      } else {
        prev.next := block;
      }
      list, view := l[..k] + [block] + l[k..], view[..k] + [block.Value()] + view[k..];
      forall i | 0 <= i < |list|
        ensures list[i].next == if i + 1 < |list| then list[i + 1] else null
        ensures view[i] == list[i].Value()
      {
        if i < k {
          assert list[i] == l[i] && old(view)[i] == old(l[i].Value());
          assert i + 1 < k ==> old(l[i].next) == l[i + 1];
        } else if i > k {
          assert list[i] == l[i - 1] && old(view)[i - 1] == old(l[i - 1].Value());
        }
      }
    }

    method CoalesceAll()
      requires Linked()
      modifies this`list, this`view, list
      ensures Linked()
      ensures view == Coalesce(old(view))
      ensures forall h :: h in list ==> h in old(list)
      ensures forall h <- old(list) :: h !in list ==> h.size == old(h.size)
    {
      hide PassFrom, Coalesce;
      PassStarts(view);
      var block := head;
      ghost var k: nat := 0;
      while block != null && block.next != null
        invariant Linked() && k <= |list|
        invariant forall h :: h in list ==> h in old(list)
        invariant block != null ==> k < |list| && block == list[k]
        invariant block == null ==> list == []
        invariant PassFrom(view, k) == Coalesce(old(view))
        invariant forall h <- old(list) :: h !in list[..k + 1] ==> h.size == old(h.size)
        decreases |list| - k
      {
        assert block in list;
        block, k := CoalesceHere(block, k);
      }
      PassEnds(view, k);
    }

    /** The body of the coalescing loop. */
    method CoalesceHere(block: Header, ghost k: nat) returns (next: Header?, ghost k': nat)
      requires Linked() && k + 1 < |list| && block == list[k]
      modifies this`list, this`view, block
      ensures Linked() && k' < |list| && next == list[k'] && |list| - k' < old(|list|) - k
      ensures forall h :: h in list ==> h in old(list)
      ensures PassFrom(view, k') == old(PassFrom(view, k))
      ensures k <= k' && old(list)[..k + 1] <= list
    {
      var blockEnd := block.addr + HEADER + AlignUp(block.size);
      if block.free && block.next.free && blockEnd == block.next.addr {
        PassMerges(view, k);
        MergeNext(block, k);
        next, k' := block, k;
      } else {
        PassSkips(view, k);
        next, k' := block.next, k + 1;
      }
    }

    /** The block takes in its successor, which leaves the list unchanged in memory. */
    method MergeNext(block: Header, ghost k: nat)
      requires Linked() && k + 1 < |list| && block == list[k]
      modifies this`list, this`view, block
      ensures Linked()
      ensures list == old(list)[..k + 1] + old(list)[k + 2..]
      ensures view == old(view)[..k] + [Merge(old(view)[k], old(view)[k + 1])] + old(view)[k + 2..]
    {
      block.size := block.size + HEADER + block.next.size;
      block.next := block.next.next;
      list := list[..k + 1] + list[k + 2..];
      view := view[..k] + [Merge(view[k], view[k + 1])] + view[k + 2..];
      forall i | 0 <= i < |list| && i != k
        ensures list[i].next == if i + 1 < |list| then list[i + 1] else null
        ensures view[i] == list[i].Value()
      {
        ghost var j := if i < k then i else i + 1;
        assert list[i] == old(list)[j];
        assert old(list[j].next) == if j + 1 < |old(list)| then old(list)[j + 1] else null;
        assert old(view)[j] == old(list[j].Value());
      }
    }

    /** Obtains the frames for a request and writes one header at their start. */
    method ObtainRegion(size: u64) returns (block: Header?)
      requires pmm.Valid() && size % 16 == 0 && size <= MAX_REQUEST
      modifies `totalBytes, `owned, `expansions, pmm, pmm.bitmap
      ensures pmm.Valid() && State() == Obtain(old(State()), size).0
      ensures block == null <==> Obtain(old(State()), size).1 == 0
      ensures block != null ==>
                && fresh(block) && block.next == null
                && block.Value() == RegionBlock(Obtain(old(State()), size).1, PagesFor(size))
    {
      hide Frames.Take, Frames.Run, PagesFor, MachinePages;
      var pages := MachinePages(size);
      PagesInRange(pmm.free, size);
      var region := pmm.AllocFrames(pages);
      if region == 0 {
        return null;
      }
      block := new Header(region, pages * 4096 - HEADER, null);
      totalBytes := totalBytes + block.size;
      owned, expansions := owned + Frames.Run(region / 4096, pages), expansions + 1;
    }

    /** Obtains a region and coalesces; the header returned may have been absorbed. */
    method HeapExpand(size: u64) returns (block: Header?)
      requires Linked() && pmm.Valid() && size % 16 == 0 && size <= MAX_REQUEST
      modifies this, list, pmm, pmm.bitmap
      ensures Linked() && pmm.Valid()
      ensures State() == Expand(old(State()), size).0
      ensures block == null <==> Expand(old(State()), size).1 == 0
      ensures block != null ==> fresh(block) && block.addr == Expand(old(State()), size).1
      ensures block != null && block !in list ==> block.size == RegionBlock(block.addr, PagesFor(size)).size
      ensures forall h :: h in list ==> h in old(list) || h == block
    {
      hide Obtain, Insert, Coalesce;
      block := ObtainRegion(size);
      if block != null {
        InsertAndCoalesce(block);
      }
    }

    /** The two list operations of an expansion. */
    method InsertAndCoalesce(block: Header)
      requires Linked() && block !in list && block.next == null
      modifies this`head, this`list, this`view, list, block
      ensures Linked()
      ensures view == Coalesce(Insert(old(view), old(block.Value())))
      ensures block !in list ==> block.size == old(block.size)
      ensures forall h :: h in list ==> h in old(list) || h == block
    {
      AppendBlock(block);
      CoalesceAll();
    }

    /** Where the header stands in the list, or -1. */
    ghost function PositionOf(block: Header): (k: int)
      reads this
      ensures At(block, k)
    {
      if block in list then var k :| 0 <= k < |list| && list[k] == block; k else -1
    }

    ghost predicate At(block: Header, k: int)
      reads `list
    {
      if k < 0 then block !in list else k < |list| && list[k] == block
    }

    /** Splits the block when the rest can hold a header and the smallest payload.
        A block that is not listed is carved all the same. */
    method SplitBlock(block: Header, size: nat, ghost k: int)
      requires Linked() && At(block, k) && block.size >= AlignUp(size)
      modifies this`list, this`view, block
      ensures Linked() && At(block, k) && block.free == old(block.free)
      ensures block.size == Carve(old(block.Value()), size)[0].size
      ensures view == if k < 0 then old(view) else
                old(view)[..k] + [block.Value()] + Carve(old(view)[k], size)[1..] + old(view)[k + 1..]
    {
      var alignedSize := AlignUp(size);
      if block.size < alignedSize + HEADER + MIN_SPLIT {
        return;
      }
      var next := new Header(block.addr + HEADER + alignedSize, block.size - alignedSize - HEADER, block.next);
      LinkAfter(block, next, alignedSize, k);
    }

    /** The two writes of a split. */
    method LinkAfter(block: Header, next: Header, size: nat, ghost k: int)
      requires Linked() && next != block && next !in list && next.next == block.next
      requires At(block, k)
      modifies this`list, this`view, block
      ensures Linked() && block.size == size && block.free == old(block.free)
      ensures k < 0 ==> list == old(list) && view == old(view)
      ensures k >= 0 ==>
                && list == old(list)[..k + 1] + [next] + old(list)[k + 1..]
                && view == old(view)[..k] + [block.Value(), next.Value()] + old(view)[k + 1..]
    {
      ghost var l := list;
      block.size := size;
      block.next := next;
      if k >= 0 {
        list := l[..k + 1] + [next] + l[k + 1..];
        view := view[..k] + [block.Value(), next.Value()] + view[k + 1..];
        forall i | 0 <= i < |list|
          ensures list[i].next == if i + 1 < |list| then list[i + 1] else null
          ensures view[i] == list[i].Value()
        {
          if i < k {
            assert list[i] == l[i] && old(l[i].next) == l[i + 1] && old(view)[i] == old(l[i].Value());
          } else if i > k + 1 {
            assert list[i] == l[i - 1] && old(view)[i - 1] == old(l[i - 1].Value());
          }
        }
      }
    }

    /** The common end of both ways to allocate: split, mark, count. */
    method HandOut(block: Header, size: nat, ghost k: int)
      requires Linked() && At(block, k) && block.size >= AlignUp(size)
      modifies `list, `view, `usedBytes, block
      ensures Linked() && At(block, k)
      ensures usedBytes == old(usedBytes) + Carve(old(block.Value()), size)[0].size
      ensures view == if k < 0 then old(view) else Place(old(view), k, size)
    {
      ghost var v := view;
      SplitBlock(block, size, k);
      MarkAllocated(block, k);
      if k >= 0 {
        PlaceInSteps(v, k, size, view);
      }
      usedBytes := usedBytes + block.size;
    }

    method MarkAllocated(block: Header, ghost k: int)
      requires Linked() && At(block, k)
      modifies `view, block
      ensures Linked() && block.size == old(block.size)
      ensures view == if k < 0 then old(view) else old(view)[k := old(view)[k].(free := false)]
    {
      block.free := false;
      if k >= 0 {
        view := view[k := block.Value()];
      }
    }

    /** The first header, in address order, of a free block that is large enough. */
    method FindFirstFit(size: nat) returns (block: Header?, ghost i: nat)
      requires Linked()
      ensures i == FirstFit(view, size)
      ensures block == if i < |list| then list[i] else null
    {
      block, i := head, 0;
      while block != null
        invariant i <= |list| && block == if i < |list| then list[i] else null
        invariant forall j :: 0 <= j < i ==> !(view[j].free && view[j].size >= size)
        decreases |list| - i
      {
        if block.free && block.size >= size {
          break;
        }
        block := block.next;
        i := i + 1;
      }
      FirstFitIs(view, size, i);
    }

    /** The end of an allocation that found a block. */
    method AllocateFitting(block: Header, size: u64, ghost i: nat)
      requires Linked() && pmm.Valid() && i < |list| && list[i] == block
      requires size == AlignUp(size) <= block.size
      modifies `list, `view, `usedBytes, block
      ensures Linked() && pmm.Valid() && block in list
      ensures State() == MallocFitting(old(State()), i, size).0
      ensures block.addr + HEADER == MallocFitting(old(State()), i, size).1
    {
      hide Place, Carve;
      HandOut(block, size, i);
    }

    /** The end of an allocation that found no block. */
    method AllocateExpanding(size: u64) returns (ptr: Header?)
      requires Linked() && pmm.Valid() && size == AlignUp(size) <= MAX_REQUEST
      requires Expand(State(), size).1 != 0 ==>
                 var (m', region) := Expand(State(), size);
                 && (forall i :: 0 <= i < |view| ==> view[i].addr != region)
                 && (IndexOf(m'.blocks, region) < |m'.blocks| ==>
                      m'.blocks[IndexOf(m'.blocks, region)] == RegionBlock(region, PagesFor(size)))
      modifies this, list, pmm, pmm.bitmap
      ensures Linked() && pmm.Valid()
      ensures State() == MallocExpanding(old(State()), size).0
      ensures (if ptr == null then 0 else ptr.addr + HEADER) == MallocExpanding(old(State()), size).1
      ensures ptr != null ==> var m' := Expand(old(State()), size).0;
                              (ptr in list <==> IndexOf(m'.blocks, ptr.addr) < |m'.blocks|)
    {
      hide Expand, Place;
      ghost var l, v := list, view;
      ptr := HeapExpand(size);
      if ptr == null {
        return;
      }
      AddressesDiffer(l, v, ptr);
      ListedByAddress(list, view, ptr);
      ghost var j := IndexOf(view, ptr.addr);
      HandOut(ptr, size, if j < |view| then j else -1);
    }

    /** First fit, else expansion. */
    method Allocate(request: u64) returns (ptr: Header?)
      requires Valid() && request <= MAX_REQUEST
      modifies this, list, pmm, pmm.bitmap
      ensures Linked() && pmm.Valid()
      ensures State() == HeapModel.Kmalloc(old(State()), request).0
      ensures (if ptr == null then 0 else ptr.addr + HEADER) == HeapModel.Kmalloc(old(State()), request).1
      ensures ptr != null ==> (ptr in list <==> !Absorbs(old(State()), request))
    {
      if request == 0 {
        return null;
      }
      hide Expand, Place, Carve, Spaced, Covers, Granular, Paged, Touched, Tiles, HeapModel.Kmalloc, Absorbs;
      hide FirstFit, IndexOf, UsedBytes, FreeBytes, MachineAlign, AlignUp, PagesFor, MallocFitting, MallocExpanding;
      KmallocCases(State(), request);
      RequestFits(request);
      RoundingInRange(request);
      var size := MachineAlign(request);
      ghost var i;
      ptr, i := FindFirstFit(size);
      if ptr != null {
        AllocateFitting(ptr, size, i);
      } else {
        ExpansionFacts(State(), size);
        ptr := AllocateExpanding(size);
      }
    }

    /** Returns the header whose payload is handed out, or null. The header is listed
        unless an expansion was absorbed. */
    method Kmalloc(request: u64) returns (ptr: Header?)
      requires Valid() && request <= MAX_REQUEST
      modifies this, list, pmm, pmm.bitmap
      ensures Valid()
      ensures State() == HeapModel.Kmalloc(old(State()), request).0
      ensures (if ptr == null then 0 else ptr.addr + HEADER) == HeapModel.Kmalloc(old(State()), request).1
      ensures ptr != null ==> (ptr in list <==> !Absorbs(old(State()), request))
    {
      KmallocStructured(State(), request);
      ptr := Allocate(request);
    }

    /** Marks a listed block free and coalesces; nothing when it was free already. */
    method Release(ptr: Header, ghost k: nat)
      requires Linked() && k < |list| && list[k] == ptr
      modifies `list, `view, `usedBytes, list
      ensures Linked()
      ensures view == if old(ptr.free) then old(view)
                      else Coalesce(old(view)[k := old(view)[k].(free := true)])
      ensures usedBytes == if old(ptr.free) then old(usedBytes) else old(usedBytes) - old(ptr.size)
    {
      if !ptr.free {
        ptr.free := true;
        view := view[k := ptr.Value()];
        usedBytes := usedBytes - ptr.size;
        CoalesceAll();
      }
    }

    /** `Release` in terms of the state. */
    method ReleaseListed(ptr: Header, ghost k: nat)
      requires Linked() && Listed(view, ptr.addr + HEADER) && k == IndexOf(view, ptr.addr)
      requires list[k] == ptr
      modifies `list, `view, `usedBytes, list
      ensures Linked() && State() == HeapModel.Kfree(old(State()), ptr.addr + HEADER)
    {
      Release(ptr, k);
    }

    method Kfree(ptr: Header?)
      requires Valid() && (ptr == null || ptr in list)
      modifies `list, `view, `usedBytes, list
      ensures Valid()
      ensures State() == HeapModel.Kfree(old(State()), if ptr == null then 0 else ptr.addr + HEADER)
    {
      if ptr == null {
        return;
      }
      hide HeapModel.Kfree, Coalesce, Structured, IndexOf;
      ghost var k := PositionOf(ptr);
      KfreeAt(State(), k);
      ReleaseListed(ptr, k);
    }
  }

  // ----- 64-bit arithmetic on requests

  /** The largest request that the rounding serves right: 2^64 - 32. */
  const MAX_REQUEST: u64 := 0xFFFF_FFFF_FFFF_FFE0

  /** `align_up` modulo 2^64. */
  function MachineAlign(n: u64): u64 {
    Add64(n, 15) / 16 * 16
  }

  /** The page count of an expansion modulo 2^64. */
  function MachinePages(size: u64): u64 {
    Add64(MachineAlign(Add64(size, HEADER)), 4095) / 4096
  }

  lemma RoundingInRange(request: u64)
    requires request <= MAX_REQUEST
    ensures MachineAlign(request) == AlignUp(request) <= MAX_REQUEST
  {
  }

  /** A page count that wraps around does so to 0, and would have been out of reach. */
  lemma PagesArithmetic(size: u64)
    requires size % 16 == 0 && size <= MAX_REQUEST
    ensures MachinePages(size) == PagesFor(size) || (MachinePages(size) == 0 && PagesFor(size) > Frames.MAX_FRAMES)
  {
    var k := size / 16;
    assert size == 16 * k;
    HeaderRounded(k);
    if k <= 0xFFF_FFFF_FFFF_FEFE {
      assert MachineAlign(Add64(size, HEADER)) == AlignUp(size + HEADER);
    } else if k <= 0xFFF_FFFF_FFFF_FFFD {
      assert MachineAlign(Add64(size, HEADER)) == 16 * k + 32;
    } else {
      assert MachineAlign(Add64(size, HEADER)) == 0;
    }
  }

  /** A header on top of a multiple of 16, rounded. */
  lemma HeaderRounded(k: nat)
    ensures AlignUp(16 * k + HEADER) == 16 * k + 32
  {
    assert 16 * k + HEADER + 15 == 16 * (k + 2) + 7;
  }

  /** The frame allocator refuses both. */
  lemma PagesInRange(free: set<nat>, size: u64)
    requires size % 16 == 0 && size <= MAX_REQUEST
    ensures Frames.Take(free, MachinePages(size)) == Frames.Take(free, PagesFor(size))
    ensures Frames.Take(free, MachinePages(size)).1 != 0 ==> MachinePages(size) == PagesFor(size)
  {
    hide MachinePages, PagesFor, Frames.Run;
    PagesArithmetic(size);
  }

  /** The request arithmetic is right, or refuses what is out of reach anyway, exactly
      up to the largest request; beyond it a tiny block would be served. */
  lemma RequestArithmetic(request: u64)
    ensures request <= MAX_REQUEST <==>
            && MachineAlign(request) == AlignUp(request)
            && (MachinePages(MachineAlign(request)) == PagesFor(AlignUp(request))
                || (MachinePages(MachineAlign(request)) == 0 && PagesFor(AlignUp(request)) > Frames.MAX_FRAMES))
  {
    if request <= MAX_REQUEST {
      RoundingInRange(request);
      AlignUpMeaning(request);
      hide MachineAlign, MachinePages, PagesFor, AlignUp;
      PagesArithmetic(AlignUp(request));
    } else if request <= 0xFFFF_FFFF_FFFF_FFF0 {
      assert AlignUp(request) == MachineAlign(request) == 0xFFFF_FFFF_FFFF_FFF0;
      assert MachinePages(0xFFFF_FFFF_FFFF_FFF0) == 1;
    } else {
      assert MachineAlign(request) == 0;
    }
  }

  lemma FirstFitIs(bs: seq<Block>, size: nat, i: nat)
    requires i <= |bs|
    requires forall j :: 0 <= j < i ==> !(bs[j].free && bs[j].size >= size)
    requires i < |bs| ==> bs[i].free && bs[i].size >= size
    ensures FirstFit(bs, size) == i
  {
  }

  lemma ExpansionFacts(m: Memory, size: nat)
    requires Structured(m)
    ensures Expand(m, size).1 != 0 ==>
              var (m', region) := Expand(m, size);
              && (forall i :: 0 <= i < |m.blocks| ==> m.blocks[i].addr != region)
              && (IndexOf(m'.blocks, region) < |m'.blocks| ==>
                   m'.blocks[IndexOf(m'.blocks, region)] == RegionBlock(region, PagesFor(size)))
              && (IndexOf(m'.blocks, region) == |m'.blocks| <==> Touched(m.blocks, region))
  {
    if Expand(m, size).1 != 0 {
      RegionUnused(m, PagesFor(size));
      ExpandedBlock(m, size);
    }
  }

  /** The two ways to serve a request. */
  lemma KmallocCases(m: Memory, request: nat)
    requires Structured(m) && request > 0
    ensures var size := AlignUp(request); var i := FirstFit(m.blocks, size);
            if i < |m.blocks| then HeapModel.Kmalloc(m, request) == MallocFitting(m, i, size) && !Absorbs(m, request)
            else
              var (m', region) := Expand(m, size);
              && HeapModel.Kmalloc(m, request) == MallocExpanding(m, size)
              && (region != 0 ==> (Absorbs(m, request) <==> IndexOf(m'.blocks, region) == |m'.blocks|))
  {
    ExpansionFacts(m, AlignUp(request));
  }

  lemma PlaceInSteps(v: seq<Block>, k: nat, size: nat, out: seq<Block>)
    requires k < |v| && k < |out|
    requires exists b: Block :: out == (v[..k] + [b] + Carve(v[k], size)[1..] + v[k + 1..])[k := b.(free := false)]
                                && b.addr == v[k].addr && b.size == Carve(v[k], size)[0].size
    ensures out == Place(v, k, size)
  {
    var c := Carve(v[k], size);
    assert c == [c[0]] + c[1..];
    assert out == v[..k] + [c[0]] + c[1..] + v[k + 1..];
  }

  lemma KfreeAt(m: Memory, k: nat)
    requires Structured(m) && k < |m.blocks|
    ensures Listed(m.blocks, m.blocks[k].Payload()) && IndexOf(m.blocks, m.blocks[k].addr) == k
    ensures Structured(HeapModel.Kfree(m, m.blocks[k].Payload()))
  {
    IndexOfIs(m.blocks, k);
    KfreeStructured(m, m.blocks[k].Payload());
  }

  lemma AddressesDiffer(list: seq<Header>, view: seq<Block>, block: Header)
    requires |view| == |list| && forall i :: 0 <= i < |list| ==> view[i].addr == list[i].addr
    requires forall i :: 0 <= i < |view| ==> view[i].addr != block.addr
    ensures forall h <- list :: h.addr != block.addr
  {
    forall h | h in list ensures h.addr != block.addr {
      var i :| 0 <= i < |list| && list[i] == h;
      assert view[i].addr == h.addr;
    }
  }

  lemma ListedByAddress(list: seq<Header>, view: seq<Block>, block: Header)
    requires |view| == |list| && forall i :: 0 <= i < |list| ==> view[i].addr == list[i].addr
    requires forall h <- list :: h != block ==> h.addr != block.addr
    ensures var j := IndexOf(view, block.addr); if j < |view| then list[j] == block else block !in list
  {
    if block in list {
      var i :| 0 <= i < |list| && list[i] == block;
      assert view[i].addr == block.addr;
    }
    var j := IndexOf(view, block.addr);
    if j < |view| {
      assert list[j] in list && view[j].addr == list[j].addr;
    }
  }

  /** No block starts where a fresh region does. */
  lemma RegionUnused(m: Memory, pages: nat)
    requires Structured(m) && pages > 0 && Frames.Take(m.free, pages).1 != 0
    ensures forall i :: 0 <= i < |m.blocks| ==> m.blocks[i].addr != Frames.Take(m.free, pages).1
  {
    var region := Frames.Take(m.free, pages).1;
    TakenRegionIsFresh(m, pages);
    forall i | 0 <= i < |m.blocks| ensures m.blocks[i].addr != region {
      if m.blocks[i].addr >= region {
        StartsAfterRegion(m, region, pages, i);
      }
    }
  }

  /** What the pass makes of the list when it has come to block k. */
  function PassFrom(bs: seq<Block>, k: nat): seq<Block>
    requires k <= |bs|
  {
    bs[..k] + Coalesce(bs[k..])
  }

  lemma PassStarts(bs: seq<Block>)
    ensures PassFrom(bs, 0) == Coalesce(bs)
  {
    assert bs[0..] == bs;
  }

  lemma PassMerges(bs: seq<Block>, k: nat)
    requires k + 1 < |bs| && Mergeable(bs[k], bs[k + 1])
    ensures PassFrom(bs[..k] + [Merge(bs[k], bs[k + 1])] + bs[k + 2..], k) == PassFrom(bs, k)
  {
    var merged := bs[..k] + [Merge(bs[k], bs[k + 1])] + bs[k + 2..];
    assert merged[k..] == [Merge(bs[k], bs[k + 1])] + bs[k..][2..];
    assert merged[..k] == bs[..k];
  }

  lemma PassSkips(bs: seq<Block>, k: nat)
    requires k + 1 < |bs| && !Mergeable(bs[k], bs[k + 1])
    ensures PassFrom(bs, k + 1) == PassFrom(bs, k)
  {
    assert bs[k..][1..] == bs[k + 1..];
    assert bs[..k + 1] == bs[..k] + [bs[k]];
  }

  lemma PassEnds(bs: seq<Block>, k: nat)
    requires k <= |bs| <= k + 1
    ensures PassFrom(bs, k) == bs
  {
  }

  lemma BelowIs(bs: seq<Block>, addr: nat, k: nat)
    requires k <= |bs|
    requires forall j :: 0 <= j < k ==> bs[j].addr < addr
    requires k < |bs| ==> bs[k].addr >= addr
    ensures Below(bs, addr) == k
  {
  }
}
