/** The specification of the physical frame allocator: sets of frame numbers,
    the page rounding of byte ranges, and the lowest run of free frames. */
module Frames {
  import opened Basics

  // The page size, 4096, is written as a literal, which keeps the arithmetic linear.
  const MAX_MEMORY: nat := 0x4000_0000
  const MAX_FRAMES: nat := 0x4_0000

  // ----- page rounding, modulo 2^64 as in the source

  function PageUp(v: u64): u64 {
    Add64(v, 4095) / 4096 * 4096
  }

  function PageDown(v: u64): u64 {
    v / 4096 * 4096
  }

  /** `count` consecutive frames. */
  function Run(start: nat, count: nat): (r: set<nat>)
    ensures |r| == count
    ensures forall f :: f in r <==> start <= f < start + count
    decreases count
  {
    if count == 0 then {} else Run(start, count - 1) + {start + count - 1}
  }

  predicate InSpan(f: nat, lo: nat, hi: nat) {
    lo <= f < hi && f < MAX_FRAMES
  }

  /** The managed frames numbered from lo up to, not including, hi. */
  function Span(lo: nat, hi: nat): (r: set<nat>)
    ensures forall f :: f in r <==> lo <= f < hi && f < MAX_FRAMES
  {
    set f: nat | f < MAX_FRAMES && InSpan(f, lo, hi)
  }

  /** What freeing a range releases: it is rounded inwards. */
  function FreedBy(base: u64, length: u64): set<nat> {
    Span(PageUp(base) / 4096, PageDown(Add64(base, length)) / 4096)
  }

  /** What reserving a range takes: it is rounded outwards. */
  function ReservedBy(base: u64, length: u64): set<nat> {
    Span(PageDown(base) / 4096, PageUp(Add64(base, length)) / 4096)
  }

  /** The range ends inside the 64-bit address space, or where it ends. */
  predicate Fits(base: u64, length: u64) {
    base + length <= TWO64
  }

  /** The inward rounding does not go wrong: a range that starts in the last page would
      have its start rounded to 0, one that ends with the address space has the end 0. */
  predicate FreedRight(base: u64, length: u64) {
    if base + length < TWO64 then base <= TWO64 - 4096 else base > MAX_MEMORY - 4096
  }

  /** The outward rounding does not go wrong: the end of a range that ends in the last
      page is rounded to 0, which matters when it starts in managed memory. */
  predicate ReservedRight(base: u64, length: u64) {
    base + length <= TWO64 - 4096 || base >= MAX_MEMORY
  }

  /** Frame f lies wholly inside the byte range. */
  ghost predicate Inside(f: nat, base: nat, length: nat) {
    base <= f * 4096 && f * 4096 + 4096 <= base + length
  }

  /** Frame f meets the byte range; an empty range meets the frame that it lies
      strictly inside. */
  ghost predicate Meets(f: nat, base: nat, length: nat) {
    base < f * 4096 + 4096 && f * 4096 < base + length
  }

  ghost predicate FreesInside(base: u64, length: u64) {
    forall f: nat :: f in FreedBy(base, length) <==> f < MAX_FRAMES && Inside(f, base, length)
  }

  ghost predicate ReservesMeeting(base: u64, length: u64) {
    forall f: nat :: f in ReservedBy(base, length) <==> f < MAX_FRAMES && Meets(f, base, length)
  }

  /** The first page boundary at or after v, and the last at or before it. */
  lemma Rounding(v: nat, f: nat)
    ensures (v + 4095) / 4096 <= f <==> v <= f * 4096
    ensures v / 4096 <= f <==> v < f * 4096 + 4096
  {
  }

  lemma RoundedPages(v: u64)
    ensures PageUp(v) / 4096 == if v <= TWO64 - 4096 then (v + 4095) / 4096 else 0
    ensures PageDown(v) / 4096 == v / 4096
  {
  }

  lemma FreedByRight(base: u64, length: u64, f: nat)
    requires Fits(base, length) && FreedRight(base, length)
    ensures f in FreedBy(base, length) <==> f < MAX_FRAMES && Inside(f, base, length)
  {
    hide PageUp, PageDown;
    RoundedPages(base);
    RoundedPages(Add64(base, length));
    Rounding(base, f);
    Rounding(Add64(base, length), f);
  }

  lemma ReservedByRight(base: u64, length: u64, f: nat)
    requires Fits(base, length) && ReservedRight(base, length)
    ensures f in ReservedBy(base, length) <==> f < MAX_FRAMES && Meets(f, base, length)
  {
    hide PageUp, PageDown;
    RoundedPages(base);
    RoundedPages(Add64(base, length));
    Rounding(base, f);
    Rounding(Add64(base, length), f);
  }

  /** Freeing a range releases exactly the managed frames inside it if and only if the
      rounding does not wrap around; a start in the last page releases every frame. */
  lemma FreedByMeaning(base: u64, length: u64)
    requires Fits(base, length)
    ensures FreesInside(base, length) <==> FreedRight(base, length)
    ensures base + length < TWO64 && base > TWO64 - 4096 ==> FreedBy(base, length) == Span(0, MAX_FRAMES)
  {
    if FreedRight(base, length) {
      forall f: nat ensures f in FreedBy(base, length) <==> f < MAX_FRAMES && Inside(f, base, length) {
        FreedByRight(base, length, f);
      }
    } else {
      hide PageUp, PageDown;
      RoundedPages(base);
      RoundedPages(Add64(base, length));
      if base + length < TWO64 {
        assert 0 in FreedBy(base, length) && !Inside(0, base, length);
      } else {
        assert 0x3_FFFF !in FreedBy(base, length) && Inside(0x3_FFFF, base, length);
      }
    }
  }

  /** Reserving a range takes exactly the managed frames that meet it if and only if the
      rounding does not wrap around; otherwise it takes none. */
  lemma ReservedByMeaning(base: u64, length: u64)
    requires Fits(base, length)
    ensures ReservesMeeting(base, length) <==> ReservedRight(base, length)
    ensures !ReservedRight(base, length) ==> ReservedBy(base, length) == {}
  {
    if ReservedRight(base, length) {
      forall f: nat ensures f in ReservedBy(base, length) <==> f < MAX_FRAMES && Meets(f, base, length) {
        ReservedByRight(base, length, f);
      }
    } else {
      hide PageUp, PageDown;
      RoundedPages(base);
      RoundedPages(Add64(base, length));
      assert base / 4096 !in ReservedBy(base, length) && Meets(base / 4096, base, length);
    }
  }

  // ----- the state after boot

  datatype MapEntry = MapEntry(base: u64, length: u64, kind: nat)

  /** The boot information: the memory map, the addresses it and the boot
      structure occupy, and the kernel image. */
  datatype BootInfo = BootInfo(
    entries: seq<MapEntry>, mapAddr: u64, selfAddr: u64, kernelStart: u64, kernelEnd: u64)

  const USABLE: nat := 1
  const MAP_ENTRY_BYTES: nat := 24
  const BOOT_INFO_BYTES: nat := 56

  function MapBytes(info: BootInfo): u64
    requires |info.entries| < 0x1_0000_0000
  {
    MAP_ENTRY_BYTES * |info.entries|
  }

  /** What the usable entries of the map release. */
  function Released(entries: seq<MapEntry>): set<nat> {
    if entries == [] then {}
    else
      var e := entries[|entries| - 1];
      Released(entries[..|entries| - 1]) + (if e.kind == USABLE then FreedBy(e.base, e.length) else {})
  }

  function InitialFree(info: BootInfo): set<nat>
    requires |info.entries| < 0x1_0000_0000
  {
    Released(info.entries) - Reserved(ReservedRanges(info))
  }

  datatype Range = Range(base: u64, length: u64)

  /** What boot takes away again, whatever the map says, in the source's order. */
  function ReservedRanges(info: BootInfo): seq<Range>
    requires |info.entries| < 0x1_0000_0000
  {
    [Range(0, 0x10_0000),
     Range(info.kernelStart, Sub64(info.kernelEnd, info.kernelStart)),
     Range(info.selfAddr, BOOT_INFO_BYTES),
     Range(info.mapAddr, MapBytes(info)),
     Range(0x1000, 0x4000)]
  }

  function Reserved(ranges: seq<Range>): set<nat> {
    if ranges == [] then {}
    else
      var r := ranges[|ranges| - 1];
      Reserved(ranges[..|ranges| - 1]) + ReservedBy(r.base, r.length)
  }

  predicate EntryRight(e: MapEntry) {
    e.kind == USABLE ==> Fits(e.base, e.length) && FreedRight(e.base, e.length)
  }

  predicate RangeRight(r: Range) {
    Fits(r.base, r.length) && ReservedRight(r.base, r.length)
  }

  /** No range of the boot information makes the rounding wrap around. */
  ghost predicate InfoRight(info: BootInfo) {
    && |info.entries| < 0x1_0000_0000
    && info.kernelStart <= info.kernelEnd
    && (forall e <- info.entries :: EntryRight(e))
    && (forall r <- ReservedRanges(info) :: RangeRight(r))
  }

  /** Frame f lies wholly inside one usable entry. */
  ghost predicate InUsableEntry(f: nat, entries: seq<MapEntry>) {
    exists e <- entries :: e.kind == USABLE && Inside(f, e.base, e.length)
  }

  /** The entries together release what each of them does. */
  lemma {:induction false} ReleasedUnion(entries: seq<MapEntry>, f: nat)
    ensures f in Released(entries) <==> exists e <- entries :: e.kind == USABLE && f in FreedBy(e.base, e.length)
  {
    if entries != [] {
      var n := |entries| - 1;
      ReleasedUnion(entries[..n], f);
      assert entries == entries[..n] + [entries[n]];
    }
  }

  lemma ReleasedMeaning(entries: seq<MapEntry>, f: nat)
    requires forall e <- entries :: EntryRight(e)
    ensures f in Released(entries) <==> f < MAX_FRAMES && InUsableEntry(f, entries)
  {
    ReleasedUnion(entries, f);
    forall e | e in entries && e.kind == USABLE
      ensures f in FreedBy(e.base, e.length) <==> f < MAX_FRAMES && Inside(f, e.base, e.length)
    {
      assert EntryRight(e);
      FreedByRight(e.base, e.length, f);
    }
  }

  /** A single usable entry of one byte in the last page makes every managed frame free
      but the reserved ones, although none is inside it. */
  lemma LastPageEntryFreesAll(info: BootInfo, f: nat)
    requires |info.entries| < 0x1_0000_0000 && MapEntry(TWO64 - 4095, 1, USABLE) in info.entries
    ensures f in InitialFree(info) <==> f < MAX_FRAMES && f !in Reserved(ReservedRanges(info))
    ensures f < MAX_FRAMES ==> !Inside(f, TWO64 - 4095, 1)
  {
    var e := MapEntry(TWO64 - 4095, 1, USABLE);
    FreedByMeaning(e.base, e.length);
    ReleasedUnion(info.entries, f);
    hide FreedBy, Reserved;
    ReleasedManaged(info.entries);
  }

  lemma {:induction false} ReleasedManaged(entries: seq<MapEntry>)
    ensures forall f :: f in Released(entries) ==> f < MAX_FRAMES
  {
    if entries != [] {
      ReleasedManaged(entries[..|entries| - 1]);
    }
  }

  /** After boot a frame is free exactly when it is managed, lies wholly inside one
      usable entry, and meets none of the reserved ranges; the low MiB never is. */
  lemma InitialFreeMeaning(info: BootInfo, f: nat)
    requires InfoRight(info)
    ensures f in InitialFree(info) <==>
            && f < MAX_FRAMES
            && InUsableEntry(f, info.entries)
            && !Meets(f, 0, 0x10_0000)
            && !Meets(f, info.kernelStart, info.kernelEnd - info.kernelStart)
            && !Meets(f, info.selfAddr, BOOT_INFO_BYTES)
            && !Meets(f, info.mapAddr, MapBytes(info))
    ensures f in InitialFree(info) ==> f * 4096 >= 0x10_0000
  {
    hide Released, Reserved, Span, PageUp, PageDown;
    ReleasedMeaning(info.entries, f);
    ReservedMeaning(ReservedRanges(info), f);
  }

  lemma {:induction false} ReservedMeaning(ranges: seq<Range>, f: nat)
    requires forall r <- ranges :: RangeRight(r)
    ensures f in Reserved(ranges) <==> f < MAX_FRAMES && exists r <- ranges :: Meets(f, r.base, r.length)
  {
    if ranges != [] {
      var n := |ranges| - 1;
      ReservedMeaning(ranges[..n], f);
      assert RangeRight(ranges[n]);
      ReservedByRight(ranges[n].base, ranges[n].length, f);
      assert ranges == ranges[..n] + [ranges[n]];
    }
  }

  lemma {:induction false} ReservedContains(ranges: seq<Range>, k: nat)
    requires k < |ranges|
    ensures ReservedBy(ranges[k].base, ranges[k].length) <= Reserved(ranges)
  {
    if k < |ranges| - 1 {
      ReservedContains(ranges[..|ranges| - 1], k);
    }
  }

  /** The order of the map's entries does not matter, whatever they are. */
  lemma InitialFreeIgnoresOrder(info: BootInfo, entries: seq<MapEntry>)
    requires |info.entries| < 0x1_0000_0000 && multiset(entries) == multiset(info.entries)
    ensures |entries| == |info.entries|
    ensures InitialFree(info.(entries := entries)) == InitialFree(info)
  {
    assert |multiset(entries)| == |entries| && |multiset(info.entries)| == |info.entries|;
    forall e ensures e in entries <==> e in info.entries {
      assert e in entries <==> e in multiset(entries);
      assert e in info.entries <==> e in multiset(info.entries);
    }
    hide FreedBy, ReservedBy;
    forall f: nat ensures f in Released(entries) <==> f in Released(info.entries) {
      ReleasedUnion(entries, f);
      ReleasedUnion(info.entries, f);
    }
    assert ReservedRanges(info.(entries := entries)) == ReservedRanges(info);
  }

  // ----- contiguous runs

  predicate RunFree(free: set<nat>, start: nat, count: nat) {
    start + count <= MAX_FRAMES && forall f | start <= f < start + count :: f in free
  }

  ghost predicate Lowest(free: set<nat>, count: nat, start: nat) {
    RunFree(free, start, count) && forall s :: 0 <= s < start ==> !RunFree(free, s, count)
  }

  lemma {:induction false} LowestExists(free: set<nat>, count: nat, start: nat)
    requires RunFree(free, start, count)
    ensures exists s :: Lowest(free, count, s)
  {
    if !Lowest(free, count, start) {
      var s :| 0 <= s < start && RunFree(free, s, count);
      LowestExists(free, count, s);
    }
  }

  /** The lowest start of `count` consecutive free frames. */
  ghost function FirstRun(free: set<nat>, count: nat): (r: Option<nat>)
    ensures r.Some? ==> Lowest(free, count, r.value)
    ensures r.None? ==> forall s: nat :: !RunFree(free, s, count)
  {
    if s: nat :| RunFree(free, s, count) then
      LowestExists(free, count, s);
      var l: nat :| Lowest(free, count, l);
      Some(l)
    else None
  }

  /** The free frames and the address (0 for null) that an allocation leaves. */
  ghost function Take(free: set<nat>, count: nat): (set<nat>, nat) {
    var run := if count == 0 then None else FirstRun(free, count);
    match run
    case None => (free, 0)
    case Some(s) => (free - Run(s, count), s * 4096)
  }

  /** While frame 0 is reserved, null means exactly that no run of the wanted length
      is free, and any other answer is the lowest such run, of which every frame and
      no other is marked. */
  lemma TakeMeaning(free: set<nat>, count: nat)
    requires 0 !in free
    ensures Take(free, count).1 == 0 <==> count == 0 || forall s :: !RunFree(free, s, count)
    ensures Take(free, count).1 == 0 ==> Take(free, count).0 == free
    ensures var (rest, ptr) := Take(free, count); ptr != 0 ==>
              && ptr % 4096 == 0
              && RunFree(free, ptr / 4096, count)
              && (forall s :: RunFree(free, s, count) ==> ptr / 4096 <= s)
              && (forall f :: f in rest <==> f in free && !(ptr / 4096 <= f < ptr / 4096 + count))
  {
    var run := FirstRun(free, count);
    if count > 0 && run.Some? {
      assert run.value in Run(run.value, count);
    }
  }

  /** How many of the `count` frames from `frame` on are allocated without a gap. */
  function AllocatedPrefix(free: set<nat>, frame: nat, count: nat): (n: nat)
    ensures n <= count
    ensures n == 0 || frame + n <= MAX_FRAMES
    ensures forall f :: frame <= f < frame + n ==> f !in free
    ensures n == count || frame + n >= MAX_FRAMES || frame + n in free
    decreases count
  {
    if count == 0 || frame >= MAX_FRAMES || frame in free then 0
    else 1 + AllocatedPrefix(free, frame + 1, count - 1)
  }

  /** The free frames after `count` frames are given back at address `ptr`. */
  function Give(free: set<nat>, ptr: nat, count: nat): set<nat> {
    if ptr == 0 then free
    else free + Run(ptr / 4096, AllocatedPrefix(free, ptr / 4096, count))
  }

  lemma GiveFreesRun(free: set<nat>, start: nat, count: nat)
    requires start + count <= MAX_FRAMES && free !! Run(start, count) && start != 0
    ensures Give(free, start * 4096, count) == free + Run(start, count)
  {
    var n := AllocatedPrefix(free, start, count);
    assert n < count ==> start + n in Run(start, count);
  }

  /** Giving back what was just taken restores the free frames exactly. */
  lemma TakeGive(free: set<nat>, count: nat)
    requires Take(free, count).1 != 0
    ensures Give(Take(free, count).0, Take(free, count).1, count) == free
  {
    var s := FirstRun(free, count).value;
    var rest := free - Run(s, count);
    GiveFreesRun(rest, s, count);
    assert rest + Run(s, count) == free;
  }

  /** The only calls that can make frame 0 allocatable, and with it the null answer
      ambiguous, give back a non-null address inside frame 0. */
  lemma FrameZeroFreed(free: set<nat>, ptr: nat, count: nat)
    ensures 0 in Give(free, ptr, count) <==> 0 in free || (0 < ptr < 4096 && count > 0)
  {
    if ptr != 0 && ptr / 4096 == 0 && count > 0 && 0 !in free {
      assert AllocatedPrefix(free, 0, count) >= 1;
    }
  }

  // ----- runs of the allocator with clients that give back what they hold

  /** What a client holds: `count` frames from frame `start` on. */
  datatype Allocation = Allocation(start: nat, count: nat) {
    predicate Has(f: nat) { start <= f < start + count }

    function All(): (r: set<nat>)
      ensures forall f :: f in r <==> Has(f)
    {
      Run(start, count)
    }
  }

  /** The free frames, and the clients' allocations, as often as there are holders. */
  datatype Ledger = Ledger(free: set<nat>, live: multiset<Allocation>)

  datatype FrameOp = TakeOp(count: nat) | GiveOp(a: Allocation)

  ghost predicate ValidOp(l: Ledger, op: FrameOp) {
    op.GiveOp? ==> op.a in l.live
  }

  ghost function Step(l: Ledger, op: FrameOp): Ledger
    requires ValidOp(l, op)
  {
    match op
    case TakeOp(count) =>
      var (free, ptr) := Take(l.free, count);
      Ledger(free, if ptr == 0 then l.live else l.live + multiset{Allocation(ptr / 4096, count)})
    case GiveOp(a) =>
      Ledger(Give(l.free, a.start * 4096, a.count), l.live - multiset{a})
  }

  ghost predicate ValidRun(l: Ledger, ops: seq<FrameOp>)
    decreases |ops|
  {
    ops == [] || (ValidOp(l, ops[0]) && ValidRun(Step(l, ops[0]), ops[1..]))
  }

  ghost function RunOps(l: Ledger, ops: seq<FrameOp>): Ledger
    requires ValidRun(l, ops)
    decreases |ops|
  {
    if ops == [] then l else RunOps(Step(l, ops[0]), ops[1..])
  }

  /** A live allocation has frame f. */
  predicate Holds(live: multiset<Allocation>, a: Allocation, f: nat) {
    a in live && a.Has(f)
  }

  /** Every frame that boot left free is free or belongs to exactly one live allocation,
      which has one holder, and nothing else is free or allocated to anybody. */
  ghost predicate Balanced(l: Ledger, boot: set<nat>) {
    && (forall f :: f in l.free ==> f in boot && forall a :: !Holds(l.live, a, f))
    && (forall a, f :: Holds(l.live, a, f) ==> f in boot)
    && (forall a, b, f :: Holds(l.live, a, f) && Holds(l.live, b, f) ==> a == b)
    && (forall f :: f in boot && f !in l.free ==> exists a :: Holds(l.live, a, f))
    && (forall a :: a in l.live ==>
         l.live[a] == 1 && 0 < a.start && 0 < a.count && a.start + a.count <= MAX_FRAMES)
  }

  /** One more allocation, of frames that are all free. */
  lemma AllocationAdded(l: Ledger, boot: set<nat>, a: Allocation)
    requires Balanced(l, boot) && a.All() <= l.free
    requires 0 < a.start && 0 < a.count && a.start + a.count <= MAX_FRAMES
    ensures Balanced(Ledger(l.free - a.All(), l.live + multiset{a}), boot)
  {
    var l' := Ledger(l.free - a.All(), l.live + multiset{a});
    assert a.Has(a.start) && a.start in a.All() && !Holds(l.live, a, a.start);
    assert forall b, f: nat :: Holds(l'.live, b, f) <==> if b == a then a.Has(f) else Holds(l.live, b, f);
    forall f | f in boot && f !in l'.free ensures exists b :: Holds(l'.live, b, f) {
      if f in l.free {
        assert Holds(l'.live, a, f);
      } else {
        var b :| Holds(l.live, b, f);
        assert Holds(l'.live, b, f);
      }
    }
  }

  lemma AllocationRemoved(l: Ledger, boot: set<nat>, a: Allocation)
    requires Balanced(l, boot) && a in l.live
    ensures Balanced(Ledger(l.free + a.All(), l.live - multiset{a}), boot)
    ensures l.free !! a.All()
  {
    var l' := Ledger(l.free + a.All(), l.live - multiset{a});
    assert forall b, f: nat :: Holds(l'.live, b, f) <==> b != a && Holds(l.live, b, f);
    assert forall f :: f in a.All() <==> Holds(l.live, a, f);
    forall f | f in boot && f !in l'.free ensures exists b :: Holds(l'.live, b, f) {
      var b :| Holds(l.live, b, f);
      assert Holds(l'.live, b, f);
    }
  }

  /** Taking keeps the balance, and none of the frames that it returns is held. */
  lemma TakeKeepsBalance(l: Ledger, boot: set<nat>, count: nat)
    requires Balanced(l, boot) && 0 !in boot
    ensures Balanced(Step(l, TakeOp(count)), boot)
    ensures var ptr := Take(l.free, count).1;
            ptr != 0 ==> forall a, f :: Holds(l.live, a, f) ==> !Allocation(ptr / 4096, count).Has(f)
  {
    if Take(l.free, count).1 != 0 {
      var a := Allocation(FirstRun(l.free, count).value, count);
      assert RunFree(l.free, a.start, count);
      hide Balanced;
      AllocationAdded(l, boot, a);
    }
  }

  /** Giving back a live allocation frees exactly its frames. */
  lemma GiveFreesAllocation(l: Ledger, boot: set<nat>, a: Allocation)
    requires Balanced(l, boot) && a in l.live
    ensures Step(l, GiveOp(a)).free == l.free + a.All()
    ensures l.free !! a.All()
  {
    AllocationRemoved(l, boot, a);
    GiveFreesRun(l.free, a.start, a.count);
  }

  lemma GiveKeepsBalance(l: Ledger, boot: set<nat>, a: Allocation)
    requires Balanced(l, boot) && a in l.live
    ensures Balanced(Step(l, GiveOp(a)), boot)
  {
    hide Balanced;
    GiveFreesAllocation(l, boot, a);
    AllocationRemoved(l, boot, a);
  }

  /** Over every run: frames are conserved, and live allocations are disjoint and have
      one holder each. */
  lemma {:induction false} RunsStayBalanced(l: Ledger, boot: set<nat>, ops: seq<FrameOp>)
    requires Balanced(l, boot) && 0 !in boot && ValidRun(l, ops)
    ensures Balanced(RunOps(l, ops), boot)
    decreases |ops|
  {
    hide Balanced;
    if ops != [] {
      match ops[0] {
        case TakeOp(count) => TakeKeepsBalance(l, boot, count);
        case GiveOp(a) => GiveKeepsBalance(l, boot, a);
      }
      RunsStayBalanced(Step(l, ops[0]), boot, ops[1..]);
    }
  }

  /** From boot on, whatever the boot information and whatever the client asks for:
      each booted frame is free or in exactly one live allocation, and frame 0 is
      never handed out, so null always means failure. */
  lemma BootedRunsStayBalanced(info: BootInfo, ops: seq<FrameOp>)
    requires |info.entries| < 0x1_0000_0000
    requires ValidRun(Ledger(InitialFree(info), multiset{}), ops)
    ensures Balanced(RunOps(Ledger(InitialFree(info), multiset{}), ops), InitialFree(info))
    ensures 0 !in RunOps(Ledger(InitialFree(info), multiset{}), ops).free
  {
    var boot := InitialFree(info);
    ReservedContains(ReservedRanges(info), 0);
    assert 0 in ReservedBy(0, 0x10_0000);
    RunsStayBalanced(Ledger(boot, multiset{}), boot, ops);
  }
}
