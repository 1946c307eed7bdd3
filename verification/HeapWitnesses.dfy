/** Concrete runs, wherever the first free frame f is: one in which an absorbed
    expansion makes two live allocations overlap, and one in which the used bytes
    exceed the total without any absorption. */
module HeapWitnesses {
  import opened Blocks
  import opened HeapModel
  import opened HeapInvariant
  import opened HeapRuns
  import opened HeapStale
  import Frames

  /** An allocator that has just the frames from f on serves the first of them. */
  lemma TakeFrom(f: nat, count: nat, have: nat)
    requires 0 < count <= have && 0 < f && f + have <= Frames.MAX_FRAMES
    ensures Frames.Take(Frames.Run(f, have), count) == (Frames.Run(f + count, have - count), f * 4096)
  {
    var free := Frames.Run(f, have);
    assert Frames.RunFree(free, f, count);
    var s := Frames.FirstRun(free, count).value;
    assert s in free;
    assert free - Frames.Run(f, count) == Frames.Run(f + count, have - count);
  }

  lemma Pair(a: Block, b: Block)
    ensures forall size :: FirstFit([a, b], size) ==
              if a.free && a.size >= size then 0 else if b.free && b.size >= size then 1 else 2
    ensures forall x :: IndexOf([a, b], x) == if a.addr == x then 0 else if b.addr == x then 1 else 2
    ensures forall x :: a.addr < x && b.addr < x ==> Below([a, b], x) == 2
    ensures !Mergeable(a, b) ==> Coalesce([a, b]) == [a, b]
    ensures Mergeable(a, b) ==> Coalesce([a, b]) == [Merge(a, b)]
  {
    assert [a, b][1..] == [b] && [b][1..] == [];
    assert [a, b][2..] == [];
  }

  lemma ExpandedTo(m: Memory, size: nat, pages: nat, region: nat)
    requires PagesFor(size) == pages > 0 && Frames.Take(m.free, pages).1 == region != 0
    ensures Expand(m, size).1 == region
    ensures Expand(m, size).0.blocks == Coalesce(Insert(m.blocks, RegionBlock(region, pages)))
  {
  }

  lemma MallocAbsorbed(s: System, size: nat, region: nat)
    requires size > 0 && AlignUp(size) == size && FirstFit(s.mem.blocks, size) == |s.mem.blocks|
    requires Expand(s.mem, size).1 == region != 0
    requires IndexOf(Expand(s.mem, size).0.blocks, region) == |Expand(s.mem, size).0.blocks|
    ensures Step(s, MallocOp(size)).mem.blocks == Expand(s.mem, size).0.blocks
    ensures Step(s, MallocOp(size)).live == s.live + multiset{Grant(region + HEADER, size)}
  {
  }

  lemma AbsorbsBecause(m: Memory, size: nat, pages: nat)
    requires size > 0 && AlignUp(size) == size && FirstFit(m.blocks, size) == |m.blocks|
    requires PagesFor(size) == pages && Frames.Take(m.free, pages).1 != 0
    requires Touched(m.blocks, Frames.Take(m.free, pages).1)
    ensures Absorbs(m, size)
  {
  }

  /** An allocation whose expansion's block is listed at j. */
  lemma MallocExpanded(s: System, size: nat, j: nat)
    requires size > 0 && AlignUp(size) == size && FirstFit(s.mem.blocks, size) == |s.mem.blocks|
    requires var (m, region) := Expand(s.mem, size); region != 0 && IndexOf(m.blocks, region) == j < |m.blocks|
    ensures var (m, region) := Expand(s.mem, size); var s' := Step(s, MallocOp(size));
            && s'.mem.blocks == Place(m.blocks, j, size)
            && s'.mem.used == m.used + Carve(RegionBlock(region, PagesFor(size)), size)[0].size
            && s'.mem.total == m.total && s'.mem.free == m.free
            && s'.live == s.live + multiset{Grant(region + HEADER, size)}
  {
    hide Expand, Place, Carve, PagesFor, FirstFit, IndexOf, AlignUp;
  }

  lemma NotAbsorbed(m: Memory, size: nat, pages: nat)
    requires AlignUp(size) == size && PagesFor(size) == pages
    requires !Touched(m.blocks, Frames.Take(m.free, pages).1)
    ensures !Absorbs(m, size)
  {
  }

  lemma MallocFitted(s: System, size: nat, i: nat)
    requires size > 0 && AlignUp(size) == size && FirstFit(s.mem.blocks, size) == i < |s.mem.blocks|
    ensures Step(s, MallocOp(size)).live == s.live + multiset{Grant(s.mem.blocks[i].Payload(), size)}
  {
  }

  // ----- malloc(64), malloc(4096), malloc(4096)

  ghost function Fresh(f: nat, have: nat): System {
    InitialSystem(Frames.Run(f, have))
  }

  ghost function AfterFirst(f: nat, have: nat): System {
    Step(Fresh(f, have), MallocOp(64))
  }

  lemma FirstExpansion(m: Memory, f: nat, have: nat)
    requires 0 < f && 0 < have && f + have <= Frames.MAX_FRAMES
    requires m.blocks == [] && m.free == Frames.Run(f, have)
    ensures var (m', region) := Expand(m, 64);
            && m'.blocks == [RegionBlock(f * 4096, 1)] && region == f * 4096
            && m'.free == Frames.Run(f + 1, have - 1)
            && m'.total == m.total + 4072 && m'.used == m.used
  {
    hide Frames.Take, Frames.Run, PagesFor, Coalesce, Insert, AlignUp;
    TakeFrom(f, 1, have);
    FirstPlaced(f);
    AloneCoalesced(RegionBlock(f * 4096, 1));
  }

  lemma AloneCoalesced(n: Block)
    ensures Insert([], n) == [n] && Coalesce([n]) == [n]
  {
    assert [][..0] + [n] + [][0..] == [n];
  }

  lemma NothingToAbsorb(m: Memory, request: nat)
    requires m.blocks == []
    ensures !Absorbs(m, request)
  {
  }

  /** One page: 64 bytes allocated, the rest free. */
  lemma FirstMalloc(f: nat, have: nat)
    requires 0 < f && 0 < have && f + have <= Frames.MAX_FRAMES
    ensures var s := AfterFirst(f, have);
            && s.mem.blocks == OnePage(f)
            && s.mem.free == Frames.Run(f + 1, have - 1)
            && s.live == multiset{Grant(f * 4096 + 24, 64)}
            && s.mem.total == 4072 && s.mem.used == 64
    ensures !Absorbs(Fresh(f, have).mem, 64)
  {
    var s := Fresh(f, have);
    hide Expand, Absorbs, Frames.Run, Place, Carve, OnePage, Step, IndexOf, PagesFor, AlignUp;
    FirstPlaced(f);
    FirstExpansion(s.mem, f, have);
    NothingToAbsorb(s.mem, 64);
    MallocExpanded(s, 64, 0);
  }

  /** The first page, split for the first request. */
  lemma FirstPlaced(f: nat)
    ensures var n := RegionBlock(f * 4096, 1);
            && PagesFor(64) == 1 && AlignUp(64) == 64
            && IndexOf([n], f * 4096) == 0
            && Place([n], 0, 64) == OnePage(f) && Carve(n, 64)[0].size == 64
  {
  }

  ghost function OnePage(f: nat): seq<Block> {
    [Block(f * 4096, 64, false), Block(f * 4096 + 88, 3984, true)]
  }

  ghost function ThreePages(f: nat): seq<Block> {
    [Block(f * 4096, 64, false), Block(f * 4096 + 88, 12176, true)]
  }

  /** A second request of two pages, which follow the first one: its free rest takes
      them in. */
  lemma SecondTouched(f: nat)
    ensures Touched(OnePage(f), f * 4096 + 4096)
    ensures FirstFit(OnePage(f), 4096) == |OnePage(f)|
    ensures IndexOf(ThreePages(f), f * 4096 + 4096) == |ThreePages(f)|
  {
    var a, b := OnePage(f)[0], OnePage(f)[1];
    Pair(a, b);
    Pair(a, ThreePages(f)[1]);
    assert [a, b][..2] == [a, b];
  }

  lemma SecondCoalesced(f: nat)
    ensures Coalesce(Insert(OnePage(f), RegionBlock(f * 4096 + 4096, 2))) == ThreePages(f)
  {
    var a, b, n := OnePage(f)[0], OnePage(f)[1], RegionBlock(f * 4096 + 4096, 2);
    Pair(a, b);
    assert Insert([a, b], n) == [a, b, n];
    assert [a, b, n][1..] == [b, n];
    Pair(b, n);
    Pair(a, Merge(b, n));
  }

  /** The second request's allocation. */
  ghost function Second(f: nat): Grant {
    Grant(f * 4096 + 4120, 4096)
  }

  lemma SecondMalloc(s: System, f: nat)
    requires 0 < f && f + 8 <= Frames.MAX_FRAMES
    requires s.mem.blocks == OnePage(f) && s.mem.free == Frames.Run(f + 1, 7)
    ensures Absorbs(s.mem, 4096)
    ensures Step(s, MallocOp(4096)).mem.blocks == ThreePages(f)
    ensures Step(s, MallocOp(4096)).live == s.live + multiset{Second(f)}
  {
    var region := f * 4096 + 4096;
    assert PagesFor(4096) == 2 && AlignUp(4096) == 4096;
    hide Step, Expand, Absorbs, Coalesce, Insert, Touched, FirstFit, IndexOf, OnePage, ThreePages;
    assert Frames.Take(s.mem.free, 2).1 == region by {
      TakeFrom(f + 1, 2, 7);
    }
    SecondTouched(f);
    AbsorbsBecause(s.mem, 4096, 2);
    ExpandedTo(s.mem, 4096, 2, region);
    SecondCoalesced(f);
    MallocAbsorbed(s, 4096, region);
  }

  lemma UnsafeAtSecond(s: System, first: nat, second: nat)
    requires Consistent(s) && !Absorbs(s.mem, first) && Absorbs(Step(s, MallocOp(first)).mem, second)
    ensures !AlwaysSafe(s, [MallocOp(first), MallocOp(second)])
  {
    var ops := [MallocOp(first), MallocOp(second)];
    var s1 := Step(s, MallocOp(first));
    assert ops[1..] == [MallocOp(second)] && [MallocOp(second)][1..] == [];
    assert ValidRun(Step(s1, MallocOp(second)), []);
    assert ValidRun(s1, [MallocOp(second)]);
    assert !NeverAbsorbs(s1, [MallocOp(second)]);
    SafeExactlyWithoutAbsorption(s, ops);
  }

  /** A run that does not stay safe. */
  lemma AbsorbingRun(f: nat)
    requires 0 < f && f + 8 <= Frames.MAX_FRAMES
    ensures !AlwaysSafe(Fresh(f, 8), [MallocOp(64), MallocOp(4096)])
  {
    FirstMalloc(f, 8);
    SecondMalloc(AfterFirst(f, 8), f);
    InitialConsistent(Frames.Run(f, 8));
    UnsafeAtSecond(Fresh(f, 8), 64, 4096);
  }

  lemma ThirdMallocOverlaps(s: System, f: nat)
    requires s.mem.blocks == ThreePages(f) && Second(f) in s.live
    ensures var live := Step(s, MallocOp(4096)).live; var third := Grant(f * 4096 + 112, 4096);
            Second(f) != third && PayloadByte(live, Second(f), f * 4096 + 4120) && PayloadByte(live, third, f * 4096 + 4120)
  {
    assert FirstFit(s.mem.blocks, 4096) == 1 by {
      Pair(s.mem.blocks[0], s.mem.blocks[1]);
    }
    MallocFitted(s, 4096, 1);
  }

  /** After one more request the last two allocations are both live and share memory. */
  lemma OverlappingAllocations(f: nat)
    requires 0 < f && f + 8 <= Frames.MAX_FRAMES
    ensures var live := Step(Step(AfterFirst(f, 8), MallocOp(4096)), MallocOp(4096)).live;
            exists g, h, x: nat :: g != h && PayloadByte(live, g, x) && PayloadByte(live, h, x)
  {
    hide *;
    FirstMalloc(f, 8);
    SecondMalloc(AfterFirst(f, 8), f);
    ThirdMallocOverlaps(Step(AfterFirst(f, 8), MallocOp(4096)), f);
  }

  /** A third request that carves the free block so that the rest starts where the
      absorbed region did. */
  lemma RestAtRegion(s: System, f: nat)
    requires s.mem.blocks == ThreePages(f)
    ensures var s' := Step(s, MallocOp(3984));
            && s'.mem.blocks == [Block(f * 4096, 64, false), Block(f * 4096 + 88, 3984, false)]
                                + [Block(f * 4096 + 4096, 8168, true)]
            && s'.live == s.live + multiset{Grant(f * 4096 + 112, 3984)}
  {
    var a, b, c := ThreePages(f)[0], Block(f * 4096 + 88, 3984, false), Block(f * 4096 + 4096, 8168, true);
    assert AlignUp(3984) == 3984;
    assert ThreePages(f) == [a] + [Block(f * 4096 + 88, 12176, true)];
    assert [a] + [b, c] == [a, b] + [c];
    hide Step, AlignUp, ThreePages;
    LastSplit(s, 3984, [a], Block(f * 4096 + 88, 12176, true));
  }

  /** The same address handed out a second time. */
  lemma RegionAgain(s: System, f: nat)
    requires s.mem.blocks == [Block(f * 4096, 64, false), Block(f * 4096 + 88, 3984, false)]
                             + [Block(f * 4096 + 4096, 8168, true)]
    requires Second(f) in s.live
    ensures Step(s, MallocOp(4096)).live[Second(f)] >= 2
  {
    assert AlignUp(4096) == 4096;
    hide Step, AlignUp;
    LastSplit(s, 4096, [Block(f * 4096, 64, false), Block(f * 4096 + 88, 3984, false)],
              Block(f * 4096 + 4096, 8168, true));
  }

  /** Four requests and no release, after which one address has two holders. */
  lemma SameAddressTwice(f: nat)
    requires 0 < f && f + 8 <= Frames.MAX_FRAMES
    ensures var s2 := Step(AfterFirst(f, 8), MallocOp(4096));
            var s4 := Step(Step(s2, MallocOp(3984)), MallocOp(4096));
            s4.live[Second(f)] >= 2 && !Safe(s4)
  {
    var s2 := Step(AfterFirst(f, 8), MallocOp(4096));
    var s3 := Step(s2, MallocOp(3984));
    hide Step, AfterFirst, OnePage, ThreePages, Absorbs;
    FirstMalloc(f, 8);
    SecondMalloc(AfterFirst(f, 8), f);
    RestAtRegion(s2, f);
    RegionAgain(s3, f);
  }

  // ----- a release that damages the list

  /** Four blocks: three allocated, the third one's header 16 bytes into the absorbed
      region. */
  ghost function FourBlocks(f: nat): seq<Block> {
    [Block(f * 4096, 64, false), Block(f * 4096 + 88, 4000, false), Block(f * 4096 + 4112, 256, false),
     Block(f * 4096 + 4392, 7872, true)]
  }

  /** An allocation that splits the last block of the list. */
  lemma LastSplit(s: System, size: nat, pre: seq<Block>, b: Block)
    requires s.mem.blocks == pre + [b] && b.free && (forall a <- pre :: !a.free)
    requires size > 0 && AlignUp(size) == size && b.size >= size + 56
    ensures var s' := Step(s, MallocOp(size));
            && s'.mem.blocks == pre + [Block(b.addr, size, false), Block(b.Payload() + size, b.size - size - 24, true)]
            && s'.live == s.live + multiset{Grant(b.Payload(), size)}
  {
    OnlyLastFits(pre, b, size);
    var n := |pre|;
    assert (pre + [b])[..n] == pre && (pre + [b])[n] == b && (pre + [b])[n + 1..] == [];
    hide FirstFit, Obtain, Expand;
  }

  lemma OnlyLastFits(pre: seq<Block>, b: Block, size: nat)
    requires b.free && b.size >= size && (forall a <- pre :: !a.free)
    ensures FirstFit(pre + [b], size) == |pre|
  {
    var all := pre + [b];
    assert forall k :: 0 <= k < |pre| ==> all[k] == pre[k] && pre[k] in pre;
    assert all[|pre|] == b;
  }

  lemma Four(a: Block, b: Block, c: Block, d: Block)
    ensures forall x :: IndexOf([a, b, c, d], x) == if a.addr == x then 0 else if b.addr == x then 1
                                                    else if c.addr == x then 2 else if d.addr == x then 3 else 4
    ensures !a.free && !b.free && !c.free ==> Coalesce([a, b, c, d]) == [a, b, c, d]
  {
    assert [a, b, c, d][1..] == [b, c, d];
    Triple(b, c, d);
  }

  /** The absorbed payload is still held when its header has come to lie under another,
      whose size has a zero byte there. */
  lemma ReleaseDamages(s: System, f: nat, found: Found)
    requires s.mem.blocks == FourBlocks(f) && Second(f) in s.live
    ensures ValidOp(s, StaleFreeOp(Second(f), found))
    ensures var s' := Step(s, StaleFreeOp(Second(f), found));
            s'.mem.blocks == FourBlocks(f)[2 := Block(f * 4096 + 4112, 257, false)]
  {
    var bs := FourBlocks(f);
    var c := Block(f * 4096 + 4112, 257, false);
    Four(bs[0], bs[1], bs[2], bs[3]);
    Four(bs[0], bs[1], c, bs[3]);
    assert bs[2 := c] == [bs[0], bs[1], c, bs[3]];
    hide IndexOf, Coalesce;
  }

  lemma DamagedList(m: Memory, f: nat)
    requires m.blocks == FourBlocks(f)[2 := Block(f * 4096 + 4112, 257, false)]
    ensures |m.blocks| == 4 && m.blocks[2].End() == m.blocks[3].addr + 1
    ensures !Spaced(m.blocks) && !Structured(m)
  {
    if Spaced(m.blocks) {
      SpacedOrdered(m.blocks, 2, 3);
    }
  }

  /** The first of two requests that carve the free block over the absorbed region. */
  lemma FirstSplit(s: System, f: nat)
    requires s.mem.blocks == ThreePages(f)
    ensures var s' := Step(s, MallocOp(4000));
            && s'.mem.blocks == FourBlocks(f)[..2] + [Block(f * 4096 + 4112, 8152, true)]
            && s'.live == s.live + multiset{Grant(f * 4096 + 112, 4000)}
  {
    var a, b, c := FourBlocks(f)[0], FourBlocks(f)[1], Block(f * 4096 + 4112, 8152, true);
    assert AlignUp(4000) == 4000;
    assert ThreePages(f) == [a] + [Block(f * 4096 + 88, 12176, true)];
    assert [a] + [b, c] == FourBlocks(f)[..2] + [c];
    hide Step, AlignUp, FourBlocks, ThreePages;
    LastSplit(s, 4000, [a], Block(f * 4096 + 88, 12176, true));
  }

  lemma SecondSplit(s: System, f: nat)
    requires s.mem.blocks == FourBlocks(f)[..2] + [Block(f * 4096 + 4112, 8152, true)]
    ensures var s' := Step(s, MallocOp(256));
            s'.mem.blocks == FourBlocks(f) && s'.live == s.live + multiset{Grant(f * 4096 + 4136, 256)}
  {
    var bs := FourBlocks(f);
    assert AlignUp(256) == 256;
    assert bs[..2] + [bs[2], bs[3]] == bs;
    assert bs[..2] == [bs[0], bs[1]] && forall a <- bs[..2] :: !a.free;
    assert bs[2] == Block(f * 4096 + 4112, 256, false) && bs[3] == Block(f * 4096 + 4392, 7872, true);
    hide Step, AlignUp, FourBlocks;
    LastSplit(s, 256, bs[..2], Block(f * 4096 + 4112, 8152, true));
  }

  /** Five calls, each valid, after which a block of the list has the size 257 and ends
      one byte inside the next one's header. */
  lemma StaleReleaseDamagesList(f: nat, found: Found)
    requires 0 < f && f + 8 <= Frames.MAX_FRAMES
    ensures var s2 := Step(AfterFirst(f, 8), MallocOp(4096));
            var s4 := Step(Step(s2, MallocOp(4000)), MallocOp(256));
            var s5 := Step(s4, StaleFreeOp(Second(f), found));
            && ValidOp(s4, StaleFreeOp(Second(f), found))
            && s5.mem.blocks == FourBlocks(f)[2 := Block(f * 4096 + 4112, 257, false)]
            && |s5.mem.blocks| == 4 && s5.mem.blocks[2].End() == s5.mem.blocks[3].addr + 1
            && !Spaced(s5.mem.blocks) && !Structured(s5.mem)
  {
    var s2 := Step(AfterFirst(f, 8), MallocOp(4096));
    var s3 := Step(s2, MallocOp(4000));
    var s4 := Step(s3, MallocOp(256));
    hide *;
    FirstMalloc(f, 8);
    SecondMalloc(AfterFirst(f, 8), f);
    FirstSplit(s2, f);
    SecondSplit(s3, f);
    ReleaseDamages(s4, f, found);
    DamagedList(Step(s4, StaleFreeOp(Second(f), found)).mem, f);
  }

  // ----- more used bytes than bytes in total

  lemma Triple(a: Block, b: Block, c: Block)
    ensures forall x :: IndexOf([a, b, c], x) ==
              if a.addr == x then 0 else if b.addr == x then 1 else if c.addr == x then 2 else 3
    ensures !Mergeable(a, b) && !Mergeable(b, c) ==> Coalesce([a, b, c]) == [a, b, c]
    ensures !Mergeable(a, b) && Mergeable(b, c) && !Mergeable(a, Merge(b, c)) ==>
              Coalesce([a, b, c]) == [a, Merge(b, c)]
  {
    Pair(b, c);
    assert [a, b, c][1..] == [b, c];
  }

  lemma FitStep(s: System, size: nat, i: nat)
    requires size > 0 && AlignUp(size) == size && FirstFit(s.mem.blocks, size) == i < |s.mem.blocks|
    requires s.mem.blocks[i].size < size + 56
    ensures var s' := Step(s, MallocOp(size)); var b := s.mem.blocks[i];
            && s'.mem == s.mem.(blocks := s.mem.blocks[i := b.(free := false)], used := s.mem.used + b.size)
            && s'.live == s.live + multiset{Grant(b.Payload(), size)}
    ensures !Absorbs(s.mem, size)
  {
    var bs := s.mem.blocks;
    assert bs[..i] + [bs[i].(free := false)] + bs[i + 1..] == bs[i := bs[i].(free := false)];
  }

  lemma SecondPage(s: System, f: nat)
    requires 0 < f && f + 2 <= Frames.MAX_FRAMES
    requires s.mem.blocks == [Block(f * 4096, 64, false), Block(f * 4096 + 88, 3984, false)]
    requires s.mem.free == Frames.Run(f + 1, 1)
    ensures !Absorbs(s.mem, 4064)
    ensures var s' := Step(s, MallocOp(4064));
            && s'.mem.blocks == s.mem.blocks + [Block(f * 4096 + 4096, 4072, false)]
            && s'.mem.total == s.mem.total + 4072 && s'.mem.used == s.mem.used + 4072
            && s'.live == s.live + multiset{Grant(f * 4096 + 4120, 4064)}
  {
    var a, b, n := s.mem.blocks[0], s.mem.blocks[1], RegionBlock(f * 4096 + 4096, 1);
    hide Expand, Absorbs, Frames.Run, Frames.Take, Place, Carve, Step, IndexOf, Coalesce, FirstFit, Touched;
    hide PagesFor, AlignUp;
    SecondPageExpansion(s.mem, f, a, b, n);
    SecondPagePlaced(f, a, b, n);
    NotAbsorbed(s.mem, 4064, 1);
    MallocExpanded(s, 4064, 2);
  }

  /** A region of one page is handed out whole. */
  lemma SecondPagePlaced(f: nat, a: Block, b: Block, n: Block)
    requires a == Block(f * 4096, 64, false) && b == Block(f * 4096 + 88, 3984, false)
    requires n == RegionBlock(f * 4096 + 4096, 1)
    ensures PagesFor(4064) == 1 && AlignUp(4064) == 4064
    ensures FirstFit([a, b], 4064) == 2 && IndexOf([a, b, n], f * 4096 + 4096) == 2
    ensures Carve(n, 4064)[0].size == 4072
    ensures Place([a, b, n], 2, 4064) == [a, b] + [Block(f * 4096 + 4096, 4072, false)]
  {
    Pair(a, b);
    Triple(a, b, n);
  }

  lemma SecondPageExpansion(m: Memory, f: nat, a: Block, b: Block, n: Block)
    requires 0 < f && f + 2 <= Frames.MAX_FRAMES
    requires m.blocks == [a, b] && a == Block(f * 4096, 64, false) && b == Block(f * 4096 + 88, 3984, false)
    requires n == RegionBlock(f * 4096 + 4096, 1) && m.free == Frames.Run(f + 1, 1)
    ensures var (m', region) := Expand(m, 4064);
            && m'.blocks == [a, b, n] && region == f * 4096 + 4096
            && m'.total == m.total + 4072 && m'.used == m.used
    ensures !Touched(m.blocks, Frames.Take(m.free, 1).1)
  {
    assert PagesFor(4064) == 1;
    assert Frames.Take(m.free, 1).1 == f * 4096 + 4096 by {
      TakeFrom(f + 1, 1, 1);
    }
    Pair(a, b);
    Triple(a, b, n);
    assert [a, b][..2] == [a, b];
    assert Insert([a, b], n) == [a, b, n];
    hide Frames.Take, Frames.Run, Coalesce, Insert, Below, PagesFor;
  }

  /** Two pages, filled completely by three allocations. */
  ghost function Filled(f: nat): System {
    Step(Step(AfterFirst(f, 2), MallocOp(3984)), MallocOp(4064))
  }

  /** The second request takes the free rest of the first page exactly. */
  lemma FirstPageFilled(s: System, f: nat)
    requires s.mem.blocks == OnePage(f)
    ensures !Absorbs(s.mem, 3984)
    ensures var s' := Step(s, MallocOp(3984));
            && s'.mem.blocks == [Block(f * 4096, 64, false), Block(f * 4096 + 88, 3984, false)]
            && s'.mem.free == s.mem.free
            && s'.mem.total == s.mem.total && s'.mem.used == s.mem.used + 3984
            && s'.live == s.live + multiset{Grant(f * 4096 + 112, 3984)}
  {
    var a, b := OnePage(f)[0], OnePage(f)[1];
    Pair(a, b);
    assert AlignUp(3984) == 3984;
    hide Absorbs, Step, Coalesce, FirstFit;
    FitStep(s, 3984, 1);
    assert s.mem.blocks[1 := b.(free := false)] == [a, b.(free := false)];
  }

  ghost function FilledGrants(f: nat): multiset<Grant> {
    multiset{Grant(f * 4096 + 24, 64), Grant(f * 4096 + 112, 3984), Grant(f * 4096 + 4120, 4064)}
  }

  lemma FilledBlocks(f: nat)
    requires 0 < f && f + 2 <= Frames.MAX_FRAMES
    ensures !Absorbs(AfterFirst(f, 2).mem, 3984)
    ensures !Absorbs(Step(AfterFirst(f, 2), MallocOp(3984)).mem, 4064)
    ensures Filled(f).mem.blocks == [Block(f * 4096, 64, false), Block(f * 4096 + 88, 3984, false),
                                     Block(f * 4096 + 4096, 4072, false)]
    ensures Filled(f).mem.total == 8144 && Filled(f).mem.used == 8120
    ensures Filled(f).live == FilledGrants(f)
  {
    hide Absorbs, Step, AfterFirst, OnePage;
    FirstMalloc(f, 2);
    FirstPageFilled(AfterFirst(f, 2), f);
    SecondPage(Step(AfterFirst(f, 2), MallocOp(3984)), f);
  }

  /** Freeing a listed block when the coalesced list is known to be `out`. */
  lemma FreedTo(s: System, g: Grant, i: nat, out: seq<Block>)
    requires g.ptr >= HEADER && IndexOf(s.mem.blocks, g.ptr - HEADER) == i < |s.mem.blocks|
    requires !s.mem.blocks[i].free && Coalesce(s.mem.blocks[i := s.mem.blocks[i].(free := true)]) == out
    ensures var s' := Step(s, FreeOp(g));
            && s'.mem == s.mem.(blocks := out, used := s.mem.used - s.mem.blocks[i].size)
            && s'.live == s.live - multiset{g}
    ensures g in s.live ==> ValidOp(s, FreeOp(g))
  {
  }

  lemma MiddleFreed(s: System, g: Grant, a: Block, b: Block, n: Block)
    requires g.ptr == b.Payload() && s.mem.blocks == [a, b, n] && !a.free && !b.free && !n.free && a.addr < b.addr < n.addr
    ensures var s' := Step(s, FreeOp(g));
            && s'.mem == s.mem.(blocks := [a, b.(free := true), n], used := s.mem.used - b.size)
            && s'.live == s.live - multiset{g}
    ensures g in s.live ==> ValidOp(s, FreeOp(g))
  {
    Triple(a, b, n);
    Triple(a, b.(free := true), n);
    assert s.mem.blocks[1 := b.(free := true)] == [a, b.(free := true), n];
    FreedTo(s, g, 1, [a, b.(free := true), n]);
  }

  lemma LastFreed(s: System, g: Grant, a: Block, b: Block, n: Block)
    requires g.ptr == n.Payload() && s.mem.blocks == [a, b, n] && !a.free && b.free && !n.free && a.addr < b.addr < n.addr
    requires Mergeable(b, n.(free := true))
    ensures var s' := Step(s, FreeOp(g));
            && s'.mem == s.mem.(blocks := [a, Merge(b, n)], used := s.mem.used - n.size)
            && s'.live == s.live - multiset{g}
    ensures g in s.live ==> ValidOp(s, FreeOp(g))
  {
    Triple(a, b, n);
    Triple(a, b, n.(free := true));
    assert s.mem.blocks[2 := n.(free := true)] == [a, b, n.(free := true)];
    FreedTo(s, g, 2, [a, Merge(b, n)]);
  }

  lemma FirstFreed(s: System, g: Grant, a: Block, b: Block)
    requires g.ptr == a.Payload() && s.mem.blocks == [a, b] && !a.free && Mergeable(a.(free := true), b)
    ensures var s' := Step(s, FreeOp(g));
            && s'.mem == s.mem.(blocks := [Merge(a.(free := true), b)], used := s.mem.used - a.size)
            && s'.live == s.live - multiset{g}
    ensures g in s.live ==> ValidOp(s, FreeOp(g))
  {
    Pair(a, b);
    Pair(a.(free := true), b);
    assert s.mem.blocks[0 := a.(free := true)] == [a.(free := true), b];
    FreedTo(s, g, 0, [Merge(a.(free := true), b)]);
  }

  /** The three blocks freed, the middle one first: they end as one block over both
      pages, which gained the second region's header. */
  lemma FreedTogether(s: System, f: nat)
    requires s.mem.blocks == [Block(f * 4096, 64, false), Block(f * 4096 + 88, 3984, false),
                              Block(f * 4096 + 4096, 4072, false)]
    requires s.live == FilledGrants(f)
    ensures var s1 := Step(s, FreeOp(Grant(f * 4096 + 112, 3984)));
            var s2 := Step(s1, FreeOp(Grant(f * 4096 + 4120, 4064)));
            var s3 := Step(s2, FreeOp(Grant(f * 4096 + 24, 64)));
            && ValidOp(s, FreeOp(Grant(f * 4096 + 112, 3984))) && ValidOp(s1, FreeOp(Grant(f * 4096 + 4120, 4064)))
            && ValidOp(s2, FreeOp(Grant(f * 4096 + 24, 64)))
            && s3.mem.blocks == [Block(f * 4096, 8168, true)]
            && s3.mem.total == s.mem.total && s3.mem.used == s.mem.used - 8120
  {
    hide Step, ValidOp;
    var a, b, n := s.mem.blocks[0], s.mem.blocks[1], s.mem.blocks[2];
    var s1 := Step(s, FreeOp(Grant(f * 4096 + 112, 3984)));
    var s2 := Step(s1, FreeOp(Grant(f * 4096 + 4120, 4064)));
    MiddleFreed(s, Grant(f * 4096 + 112, 3984), a, b, n);
    LastFreed(s1, Grant(f * 4096 + 4120, 4064), a, b.(free := true), n);
    FirstFreed(s2, Grant(f * 4096 + 24, 64), a, Merge(b.(free := true), n));
  }

  /** Seven calls, none of them absorbing, after which the used bytes exceed the total,
      so that the free bytes that the heap reports wrap around. */
  lemma UsedExceedsTotal(f: nat)
    requires 0 < f && f + 2 <= Frames.MAX_FRAMES
    ensures var s1 := Step(Filled(f), FreeOp(Grant(f * 4096 + 112, 3984)));
            var s2 := Step(s1, FreeOp(Grant(f * 4096 + 4120, 4064)));
            var s3 := Step(s2, FreeOp(Grant(f * 4096 + 24, 64)));
            var s4 := Step(s3, MallocOp(8160));
            && ValidOp(Filled(f), FreeOp(Grant(f * 4096 + 112, 3984))) && ValidOp(s1, FreeOp(Grant(f * 4096 + 4120, 4064)))
            && ValidOp(s2, FreeOp(Grant(f * 4096 + 24, 64))) && !Absorbs(s3.mem, 8160)
            && s4.mem.used == 8168 > s4.mem.total == 8144
  {
    FilledBlocks(f);
    FreedTogether(Filled(f), f);
    var s3 := Step(Step(Step(Filled(f), FreeOp(Grant(f * 4096 + 112, 3984))), FreeOp(Grant(f * 4096 + 4120, 4064))), FreeOp(Grant(f * 4096 + 24, 64)));
    assert FirstFit([Block(f * 4096, 8168, true)], 8160) == 0;
    assert AlignUp(8160) == 8160;
    hide *;
    FitStep(s3, 8160, 0);
  }
}
