/** Every heap operation keeps the list address-ordered and tiling exactly the owned
    frames; an expansion's block stays in the list unless its predecessor absorbs it. */
module HeapInvariant {
  import opened Blocks
  import opened HeapModel
  import Frames

  // ----- expansion

  /** A region of whole pages of which no byte is covered yet. */
  ghost predicate FreshRegion(m: Memory, region: nat, pages: nat) {
    && region % 4096 == 0 && pages > 0
    && m.owned !! Frames.Run(region / 4096, pages)
  }

  lemma TakenRegionIsFresh(m: Memory, pages: nat)
    requires Structured(m) && pages > 0 && Frames.Take(m.free, pages).1 != 0
    ensures FreshRegion(m, Frames.Take(m.free, pages).1, pages)
    ensures Frames.Take(m.free, pages).0
         == m.free - Frames.Run(Frames.Take(m.free, pages).1 / 4096, pages)
  {
  }

  /** A block that starts below a fresh region ends there or before. */
  lemma EndsBeforeRegion(m: Memory, region: nat, pages: nat, i: nat)
    requires Structured(m) && FreshRegion(m, region, pages)
    requires i < |m.blocks| && m.blocks[i].addr < region
    ensures m.blocks[i].End() <= region
  {
    CoversMember(m.blocks, region);
    assert region / 4096 in Frames.Run(region / 4096, pages);
    assert !Covers(m.blocks, region);
    assert !m.blocks[i].Contains(region);
  }

  /** A block that starts at or above a fresh region starts after its end. */
  lemma StartsAfterRegion(m: Memory, region: nat, pages: nat, i: nat)
    requires Structured(m) && FreshRegion(m, region, pages)
    requires i < |m.blocks| && m.blocks[i].addr >= region
    ensures m.blocks[i].addr >= RegionBlock(region, pages).End() > region
  {
    var x := m.blocks[i].addr;
    CoversMember(m.blocks, x);
    assert m.blocks[i].Contains(x);
    assert Covers(m.blocks, x);
    assert x / 4096 !in Frames.Run(region / 4096, pages);
  }

  /** The block before and the block after the place of a fresh region keep clear of it. */
  lemma NeighboursOfRegion(m: Memory, region: nat, pages: nat)
    requires Structured(m) && FreshRegion(m, region, pages)
    ensures var k := Below(m.blocks, region);
            && (k > 0 ==> Apart(m.blocks[k - 1], RegionBlock(region, pages)))
            && (k < |m.blocks| ==> Apart(RegionBlock(region, pages), m.blocks[k]))
  {
    var bs, k := m.blocks, Below(m.blocks, region);
    if k > 0 {
      EndsBeforeRegion(m, region, pages, k - 1);
    }
    if k < |bs| {
      StartsAfterRegion(m, region, pages, k);
    }
    PagedAround(bs, k);
  }

  /** Where neighbours do not touch, both sides are on page boundaries. */
  lemma PagedAround(bs: seq<Block>, k: nat)
    requires Spaced(bs) && Paged(bs) && k <= |bs|
    requires 0 < k < |bs| ==> bs[k - 1].End() < bs[k].addr
    ensures k > 0 ==> bs[k - 1].End() % 4096 == 0
    ensures k < |bs| ==> bs[k].addr % 4096 == 0
  {
    if 0 < k < |bs| {
      assert bs == bs[..k] + bs[k..];
      ConcatSpaced(bs[..k], bs[k..]);
    }
  }

  lemma InsertShape(m: Memory, region: nat, pages: nat)
    requires Structured(m) && FreshRegion(m, region, pages)
    ensures var all := Insert(m.blocks, RegionBlock(region, pages)); Spaced(all) && Paged(all)
  {
    NeighboursOfRegion(m, region, pages);
    InsertBetween(m.blocks, Below(m.blocks, region), RegionBlock(region, pages));
  }

  lemma InsertBetween(bs: seq<Block>, k: nat, n: Block)
    requires k <= |bs| && Spaced(bs) && Paged(bs) && Paged([n])
    requires k > 0 ==> Apart(bs[k - 1], n)
    requires k < |bs| ==> Apart(n, bs[k])
    ensures var all := bs[..k] + [n] + bs[k..]; Spaced(all) && Paged(all)
  {
    var low, high := bs[..k], bs[k..];
    assert bs == low + high;
    ConcatSpaced(low, high);
    SurroundedSpaced(low, [n], high);
    var all := low + [n] + high;
    assert all[0] == if k == 0 then n else bs[0];
    assert Last(all) == if k == |bs| then n else Last(bs);
  }

  lemma RegionGranular(region: nat, pages: nat)
    requires region % 4096 == 0 && pages > 0
    ensures Granular([RegionBlock(region, pages)])
  {
    var b := RegionBlock(region, pages);
    EightTimes(b.addr, region / 4096 * 512);
    EightTimes(b.size, pages * 512 - 3);
    assert [b][1..] == [];
  }

  lemma InsertGranular(bs: seq<Block>, k: nat, n: Block)
    requires k <= |bs| && Granular(bs) && Granular([n])
    ensures Granular(bs[..k] + [n] + bs[k..])
  {
    assert bs == bs[..k] + bs[k..];
    ConcatGranular(bs[..k], bs[k..]);
    ConcatGranular(bs[..k], [n]);
    ConcatGranular(bs[..k] + [n], bs[k..]);
  }

  lemma InsertKeeps(m: Memory, region: nat, pages: nat)
    requires Structured(m) && FreshRegion(m, region, pages)
    ensures var n := RegionBlock(region, pages); var all := Insert(m.blocks, n);
            && Tiles(all, m.owned + Frames.Run(region / 4096, pages))
            && Allocated(all) == Allocated(m.blocks)
            && UsedBytes(all) == UsedBytes(m.blocks)
            && FreeBytes(all) == FreeBytes(m.blocks) + n.size
            && |all| == |m.blocks| + 1
  {
    var bs, k, n := m.blocks, Below(m.blocks, region), RegionBlock(region, pages);
    assert bs == bs[..k] + bs[k..];
    ConcatMeasures(bs[..k], bs[k..]);
    SurroundedMeasures(bs[..k], [n], bs[k..]);
    OneFreeBlock(n);
    assert Allocated(bs[..k]) + [] + Allocated(bs[k..]) == Allocated(bs);
    forall x: nat
      ensures Covers(Insert(bs, n), x) <==>
              x / 4096 in m.owned + Frames.Run(region / 4096, pages)
    {
      assert n.Contains(x) <==> x / 4096 in Frames.Run(region / 4096, pages);
    }
  }

  lemma CoalesceTiles(bs: seq<Block>, owned: set<nat>)
    requires Spaced(bs) && Tiles(bs, owned)
    ensures Tiles(Coalesce(bs), owned)
  {
    CoalesceKeeps(bs);
  }

  lemma CoalesceBalance(bs: seq<Block>)
    requires Spaced(bs)
    ensures UsedBytes(Coalesce(bs)) + FreeBytes(Coalesce(bs)) + HEADER * |Coalesce(bs)|
         == UsedBytes(bs) + FreeBytes(bs) + HEADER * |bs|
  {
    CoalesceKeeps(bs);
  }

  lemma RegionStructured(m: Memory, region: nat, pages: nat, free: set<nat>)
    requires Structured(m) && FreshRegion(m, region, pages)
    requires free == m.free - Frames.Run(region / 4096, pages)
    ensures var b := RegionBlock(region, pages);
            Structured(Memory(Coalesce(Insert(m.blocks, b)), m.total + b.size, m.used,
                              m.owned + Frames.Run(region / 4096, pages), free, m.expansions + 1))
  {
    var b := RegionBlock(region, pages);
    var all := Insert(m.blocks, b);
    InsertShape(m, region, pages);
    CoalesceShape(all);
    InsertKeeps(m, region, pages);
    CoalesceTiles(all, m.owned + Frames.Run(region / 4096, pages));
    CoalesceBalance(all);
    RegionGranular(region, pages);
    InsertGranular(m.blocks, Below(m.blocks, region), b);
    CoalesceGranular(all);
  }

  lemma ExpandStructured(m: Memory, size: nat)
    requires Structured(m)
    ensures Structured(Expand(m, size).0)
  {
    var pages := PagesFor(size);
    var (free, region) := Frames.Take(m.free, pages);
    if region != 0 {
      TakenRegionIsFresh(m, pages);
      RegionStructured(m, region, pages, free);
    } else {
      assert free <= m.free;
    }
  }

  /** An expansion takes the lowest run of the fewest frames that hold the request and a
      header, and nothing when there is none. */
  lemma ExpandTakesFewest(m: Memory, size: nat, pages: nat)
    requires 0 !in m.free && (pages - 1) * 4096 < size + HEADER <= pages * 4096
    ensures var (m', region) := Expand(m, size);
            && (region == 0 <==> forall s :: !Frames.RunFree(m.free, s, pages))
            && (region == 0 ==> m' == m)
            && (region != 0 ==>
                 && region % 4096 == 0 && Frames.RunFree(m.free, region / 4096, pages)
                 && (forall s :: Frames.RunFree(m.free, s, pages) ==> region / 4096 <= s)
                 && m'.owned == m.owned + Frames.Run(region / 4096, pages)
                 && m'.free == m.free - Frames.Run(region / 4096, pages)
                 && m'.total == m.total + pages * 4096 - 24 && m'.used == m.used
                 && m'.expansions == m.expansions + 1)
  {
    PagesForMeaning(size, pages);
    Frames.TakeMeaning(m.free, pages);
    hide PagesFor, Insert, Coalesce, Frames.Take;
    if Expand(m, size).1 != 0 {
      TakenRun(m.free, pages);
    }
  }

  lemma TakenRun(free: set<nat>, count: nat)
    requires 0 !in free && count > 0 && Frames.Take(free, count).1 != 0
    ensures Frames.Take(free, count).0 == free - Frames.Run(Frames.Take(free, count).1 / 4096, count)
  {
  }

  /** An allocation returns null exactly when nothing is asked for, or when no free block
      can hold the rounded request and no run of free frames can hold it with a header;
      then nothing changes. */
  lemma KmallocFails(m: Memory, request: nat)
    requires 0 !in m.free
    ensures Kmalloc(m, request).1 == 0 <==>
            || request == 0
            || (&& (forall b <- m.blocks :: b.free ==> b.size < AlignUp(request))
                && forall n: nat, s: nat {:trigger Frames.RunFree(m.free, s, n)} ::
                     n * 4096 >= AlignUp(request) + HEADER ==> !Frames.RunFree(m.free, s, n))
    ensures Kmalloc(m, request).1 == 0 ==> Kmalloc(m, request).0 == m
  {
    if request > 0 {
      var size := AlignUp(request);
      var pages := PagesFor(size);
      PagesForMeaning(size, pages);
      ExpandTakesFewest(m, size, pages);
      FirstFitFails(m.blocks, size);
      forall n: nat, s: nat | n * 4096 >= size + HEADER && Frames.RunFree(m.free, s, n)
        ensures Frames.RunFree(m.free, s, pages)
      {
        assert pages <= n;
      }
      hide Expand, FirstFit, AlignUp, PagesFor, Place, Carve, Frames.RunFree;
    }
  }

  lemma FirstFitFails(bs: seq<Block>, size: nat)
    ensures FirstFit(bs, size) == |bs| <==> forall b <- bs :: b.free ==> b.size < size
  {
    var i := FirstFit(bs, size);
    assert i < |bs| ==> bs[i] in bs;
  }

  lemma ExpandKeepsAllocated(m: Memory, size: nat)
    requires Structured(m)
    ensures Allocated(Expand(m, size).0.blocks) == Allocated(m.blocks)
    ensures UsedBytes(Expand(m, size).0.blocks) == UsedBytes(m.blocks)
  {
    var pages := PagesFor(size);
    var (free, region) := Frames.Take(m.free, pages);
    if region != 0 {
      TakenRegionIsFresh(m, pages);
      InsertShape(m, region, pages);
      InsertKeeps(m, region, pages);
      CoalesceKeeps(Insert(m.blocks, RegionBlock(region, pages)));
    }
  }

  // ----- absorption

  /** The blocks below the region, coalesced, end in a free block that touches the
      region and whose size is a multiple of 16. */
  predicate Touched(bs: seq<Block>, region: nat) {
    var p := Coalesce(bs[..Below(bs, region)]);
    p != [] && Last(p).free && Last(p).End() == region && Last(p).size % 16 == 0
  }

  /** The coalescing after an expansion, in closed form: the new block never merges
      forward, and is absorbed backwards exactly when it is touched. */
  lemma ExpansionCoalesced(m: Memory, region: nat, pages: nat)
    requires Structured(m) && FreshRegion(m, region, pages)
    ensures var n := RegionBlock(region, pages); var k := Below(m.blocks, region);
            var out := Coalesce(Insert(m.blocks, n));
            if Touched(m.blocks, region)
            then IndexOf(out, region) == |out|
                 && exists b <- out :: b.free && b.addr < region && b.End() >= n.End()
            else out == Coalesce(m.blocks[..k]) + [n] + Coalesce(m.blocks[k..])
                 && IndexOf(out, region) == |Coalesce(m.blocks[..k])|
  {
    var k, n := Below(m.blocks, region), RegionBlock(region, pages);
    var low, high := m.blocks[..k], m.blocks[k..];
    InsertShape(m, region, pages);
    if k == 0 {
      assert [] + [n] + high == [n] + high;
    }
    if Touched(m.blocks, region) {
      AbsorbedOutcome(low, n, high);
    } else {
      StandsAlone(low, n, high);
    }
  }

  /** The new block stays in the list, with everything around it coalesced apart. */
  lemma StandsAlone(low: seq<Block>, n: Block, high: seq<Block>)
    requires Spaced(low + [n] + high) && n.free && n.size % 16 == 8
    requires var p := Coalesce(low);
             !(p != [] && Last(p).free && Last(p).End() == n.addr && Last(p).size % 16 == 0)
    ensures var out := Coalesce(low + [n] + high);
            out == Coalesce(low) + [n] + Coalesce(high) && IndexOf(out, n.addr) == |Coalesce(low)|
  {
    SurroundedSpaced(low, [n], high);
    NoForwardMerge(n, high);
    if low == [] {
      assert low + [n] + high == [n] + high;
      assert Coalesce(low) + [n] + Coalesce(high) == [n] + Coalesce(high);
    } else {
      BelowTouches(low, n);
      NoBackwardMerge(low, n, high);
    }
    CoalesceShape(low + [n] + high);
    IndexOfIs(Coalesce(low + [n] + high), |Coalesce(low)|);
  }

  lemma NoBackwardMerge(low: seq<Block>, n: Block, high: seq<Block>)
    requires low != [] && Coalesce(low) != [] && !Mergeable(Last(Coalesce(low)), n)
    requires Coalesce([n] + high) == [n] + Coalesce(high)
    ensures Coalesce(low + [n] + high) == Coalesce(low) + [n] + Coalesce(high)
  {
    var p := Coalesce(low);
    var rest := [n] + high;
    assert low + rest == low + [n] + high;
    CoalesceConcat(low, rest);
    CoalesceStep(Last(p), rest);
    assert p == Front(p) + [Last(p)];
  }

  lemma CoalesceStep(b: Block, rest: seq<Block>)
    requires rest != [] && !Mergeable(b, rest[0])
    ensures Coalesce([b] + rest) == [b] + Coalesce(rest)
  {
    assert ([b] + rest)[1..] == rest;
  }

  lemma NoForwardMerge(n: Block, high: seq<Block>)
    requires n.size % 16 == 8 && (high != [] ==> Apart(n, high[0]))
    ensures Coalesce([n] + high) == [n] + Coalesce(high)
  {
    if high != [] {
      MergeTouches(n, high[0]);
      assert ([n] + high)[1..] == high;
    }
  }

  lemma BelowTouches(low: seq<Block>, n: Block)
    requires low != [] && Spaced(low) && Apart(Last(low), n) && n.free
    ensures Coalesce(low) != []
    ensures var last := Last(Coalesce(low));
            Mergeable(last, n) <==> last.free && last.End() == n.addr && last.size % 16 == 0
  {
    CoalesceShape(low);
    MergeTouches(Last(Coalesce(low)), n);
  }

  /** Where the new block went when its predecessor took it in. */
  lemma AbsorbedOutcome(low: seq<Block>, n: Block, high: seq<Block>)
    requires Spaced(low + [n] + high) && n.free
    requires var p := Coalesce(low);
             p != [] && Last(p).free && Last(p).End() == n.addr && Last(p).size % 16 == 0
    ensures var out := Coalesce(low + [n] + high);
            && IndexOf(out, n.addr) == |out|
            && exists b <- out :: b.free && b.addr < n.addr && b.End() >= n.End()
  {
    SurroundedSpaced(low, [n], high);
    var p := Coalesce(low);
    var last := Last(p);
    var merged := [Merge(last, n)] + high;
    AbsorbedPass(low, n, high);
    ConcatSpaced([Merge(last, n)], high);
    CoalesceShape(merged);
    CoalesceShape(low + [n] + high);
    var out, at := Coalesce(low + [n] + high), |p| - 1;
    assert out[at] == Coalesce(merged)[0];
    Straddled(out, at, n.addr);
  }

  lemma AbsorbedPass(low: seq<Block>, n: Block, high: seq<Block>)
    requires Coalesce(low) != [] && Mergeable(Last(Coalesce(low)), n)
    ensures Coalesce(low + [n] + high)
         == Front(Coalesce(low)) + Coalesce([Merge(Last(Coalesce(low)), n)] + high)
  {
    var last := Last(Coalesce(low));
    assert low + ([n] + high) == low + [n] + high;
    CoalesceConcat(low, [n] + high);
    assert [last] + ([n] + high) == [last, n] + high;
    assert ([last, n] + high)[2..] == high;
  }

  /** No block starts inside another. */
  lemma Straddled(bs: seq<Block>, at: nat, addr: nat)
    requires Spaced(bs) && at < |bs| && bs[at].addr < addr < bs[at].End()
    ensures IndexOf(bs, addr) == |bs|
  {
    var j := IndexOf(bs, addr);
    if at < j < |bs| {
      SpacedOrdered(bs, at, j);
    } else if j < at {
      SpacedOrdered(bs, j, at);
    }
  }

  // ----- the structure under allocation and release

  /** The expansion that this request needs is absorbed: no block fits, frames are
      available, and the block that ends where they start takes them in. */
  ghost predicate Absorbs(m: Memory, request: nat) {
    && request > 0
    && FirstFit(m.blocks, AlignUp(request)) == |m.blocks|
    && var region := Frames.Take(m.free, PagesFor(AlignUp(request))).1;
       region != 0 && Touched(m.blocks, region)
  }

  lemma PlaceStructured(m: Memory, i: nat, size: nat, used: int)
    requires Structured(m) && i < |m.blocks|
    requires m.blocks[i].free && m.blocks[i].size >= AlignUp(size)
    ensures Structured(m.(blocks := Place(m.blocks, i, size), used := used))
  {
    PlaceShape(m.blocks, i, size);
    PlaceGranular(m.blocks, i, size);
    PlaceKeeps(m.blocks, i, size);
  }

  /** Rounding twice is rounding once, and a region has room for what it is for. */
  lemma RequestFits(request: nat)
    ensures AlignUp(AlignUp(request)) == AlignUp(request)
    ensures forall region :: RegionBlock(region, PagesFor(AlignUp(request))).size >= AlignUp(request)
  {
  }

  /** Allocation keeps the list sorted and tiling exactly the owned frames, absorbed
      or not. */
  lemma KmallocStructured(m: Memory, request: nat)
    requires Structured(m)
    ensures Structured(Kmalloc(m, request).0)
  {
    if request > 0 {
      var size := AlignUp(request);
      var i := FirstFit(m.blocks, size);
      RequestFits(request);
      if i < |m.blocks| {
        PlaceStructured(m, i, size, m.used + Carve(m.blocks[i], size)[0].size);
      } else {
        ExpandStructured(m, size);
        var (m', region) := Expand(m, size);
        if region != 0 {
          var j := IndexOf(m'.blocks, region);
          var used := m'.used + Carve(RegionBlock(region, PagesFor(size)), size)[0].size;
          if j < |m'.blocks| {
            ExpandedBlock(m, size);
            PlaceStructured(m', j, size, used);
          }
        }
      }
    }
  }

  /** When it is still listed, the expansion's block is as it was made. */
  lemma ExpandedBlock(m: Memory, size: nat)
    requires Structured(m) && Expand(m, size).1 != 0
    ensures var (m', region) := Expand(m, size); var j := IndexOf(m'.blocks, region);
            && (j == |m'.blocks| <==> Touched(m.blocks, region))
            && (j < |m'.blocks| ==> m'.blocks[j] == RegionBlock(region, PagesFor(size)))
            && (j == |m'.blocks| ==>
                 exists b <- m'.blocks :: b.free && b.addr < region
                                          && b.End() >= RegionBlock(region, PagesFor(size)).End())
  {
    var pages := PagesFor(size);
    TakenRegionIsFresh(m, pages);
    ExpansionCoalesced(m, Expand(m, size).1, pages);
  }

  lemma KfreeStructured(m: Memory, ptr: nat)
    requires Structured(m) && Listed(m.blocks, ptr)
    ensures Structured(Kfree(m, ptr))
    ensures Allocated(Kfree(m, ptr).blocks) == Allocated(Freed(m.blocks, ptr))
    ensures UsedBytes(Kfree(m, ptr).blocks) == UsedBytes(Freed(m.blocks, ptr))
  {
    var i := IndexOf(m.blocks, ptr - HEADER);
    var freed := Freed(m.blocks, ptr);
    if !m.blocks[i].free {
      FreedShape(m.blocks, i);
      FreedKeeps(m.blocks, i);
      CoalesceShape(freed);
      CoalesceKeeps(freed);
      CoalesceGranular(freed);
    } else {
      assert freed == m.blocks;
    }
  }

  lemma OtherAddress(bs: seq<Block>, i: nat, b: Block)
    requires Spaced(bs) && i < |bs|
    requires b in Allocated(bs[..i]) || b in Allocated(bs[i + 1..])
    ensures b.addr != bs[i].addr
  {
    AllocatedMember(bs[..i], b);
    AllocatedMember(bs[i + 1..], b);
    var j :| 0 <= j < |bs| && j != i && bs[j] == b;
    if b.addr == bs[i].addr {
      UniqueAddress(bs, i, j);
    }
  }

  /** Releasing a block a second time, while its header is in the list, changes nothing. */
  lemma KfreeTwice(m: Memory, ptr: nat)
    requires Structured(m) && Listed(m.blocks, ptr) && Listed(Kfree(m, ptr).blocks, ptr)
    ensures Kfree(Kfree(m, ptr), ptr) == Kfree(m, ptr)
  {
    var i := IndexOf(m.blocks, ptr - HEADER);
    var after := Kfree(m, ptr);
    var j := IndexOf(after.blocks, ptr - HEADER);
    if !m.blocks[i].free && !after.blocks[j].free {
      var b := after.blocks[j];
      KfreeStructured(m, ptr);
      FreedKeeps(m.blocks, i);
      AllocatedMember(after.blocks, b);
      assert b in Allocated(m.blocks[..i]) || b in Allocated(m.blocks[i + 1..]);
      OtherAddress(m.blocks, i, b);
    }
  }

  /** The list with the block of this pointer marked free. */
  function Freed(bs: seq<Block>, ptr: nat): seq<Block>
    requires Listed(bs, ptr)
  {
    var i := IndexOf(bs, ptr - HEADER);
    bs[i := bs[i].(free := true)]
  }

  lemma FreedShape(bs: seq<Block>, i: nat)
    requires i < |bs| && Spaced(bs) && Paged(bs) && Granular(bs)
    ensures var freed := bs[i := bs[i].(free := true)];
            Spaced(freed) && Paged(freed) && Granular(freed)
  {
    var pre, b, post := bs[..i], bs[i], bs[i + 1..];
    var b' := b.(free := true);
    SplitAround(bs, i);
    SurroundedSpaced(pre, [b], post);
    SurroundedSpaced(pre, [b'], post);
    ConcatGranular(pre, [b]);
    ConcatGranular(pre + [b], post);
    ConcatGranular(pre, [b']);
    ConcatGranular(pre + [b'], post);
    assert bs[i := b'] == pre + [b'] + post;
  }

  lemma FreedKeeps(bs: seq<Block>, i: nat)
    requires i < |bs| && !bs[i].free
    ensures var freed := bs[i := bs[i].(free := true)];
            && (forall x :: Covers(freed, x) <==> Covers(bs, x))
            && Allocated(bs) == Allocated(bs[..i]) + [bs[i]] + Allocated(bs[i + 1..])
            && Allocated(freed) == Allocated(bs[..i]) + Allocated(bs[i + 1..])
            && UsedBytes(freed) == UsedBytes(bs) - bs[i].size
            && FreeBytes(freed) == FreeBytes(bs) + bs[i].size
  {
    var pre, b, post := bs[..i], bs[i], bs[i + 1..];
    var b' := b.(free := true);
    SplitAround(bs, i);
    SurroundedMeasures(pre, [b], post);
    SurroundedMeasures(pre, [b'], post);
    OneFreeBlock(b');
    assert bs[i := b'] == pre + [b'] + post;
    assert [b][1..] == [] && Allocated([b]) == [b];
    assert forall x :: Covers([b], x) <==> b.Contains(x);
  }
}
