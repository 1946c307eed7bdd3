/** Runs of the heap: what clients hold, when their memory is theirs alone, and the
    one situation in which it is not. */
module HeapRuns {
  import opened Blocks
  import opened HeapModel
  import opened HeapInvariant
  import opened HeapStale
  import Frames

  /** An allocation that a client holds: the payload pointer and the requested bytes. */
  datatype Grant = Grant(ptr: nat, request: nat)

  /** The heap and what its clients hold. A grant occurs as often as there are holders,
      so that an address handed out twice is held twice. */
  datatype System = System(mem: Memory, live: multiset<Grant>)

  /** One holder, and one grant for each pointer. */
  ghost predicate Single(live: multiset<Grant>) {
    && (forall g :: g in live ==> live[g] == 1 && g.request > 0)
    && (forall g, h :: g in live && h in live && g.ptr == h.ptr ==> g == h)
  }

  /** The block behind a grant is among `held`, and can hold the rounded request. */
  ghost predicate Backed(held: seq<Block>, g: Grant) {
    exists b <- held :: b.Payload() == g.ptr && AlignUp(g.request) <= b.size
  }

  ghost predicate Claimed(b: Block, live: multiset<Grant>) {
    exists g :: g in live && g.ptr == b.Payload()
  }

  /** Every allocated block is held by exactly one client, whose rounded request it can
      hold, and everything held is an allocated block of the list. */
  ghost predicate Matches(held: seq<Block>, live: multiset<Grant>) {
    && Single(live)
    && (forall g :: g in live ==> Backed(held, g))
    && (forall b <- held :: Claimed(b, live))
  }

  ghost predicate Consistent(s: System) {
    && Structured(s.mem)
    && Matches(Allocated(s.mem.blocks), s.live)
    && s.mem.used == UsedBytes(s.mem.blocks)
  }

  /** Byte x belongs to the payload of a live grant, of the rounded requested size. */
  predicate PayloadByte(live: multiset<Grant>, g: Grant, x: nat) {
    g in live && g.ptr <= x < g.ptr + AlignUp(g.request)
  }

  predicate HeaderByte(b: Block, x: nat) {
    b.addr <= x < b.Payload()
  }

  /** What the clients rely on: every allocation has one holder, no byte of a payload
      belongs to another payload, to a header or to a free block, and all of it is memory
      obtained for the heap. */
  ghost predicate Safe(s: System) {
    && (forall g :: g in s.live ==> s.live[g] == 1)
    && (forall g, h, x: nat :: PayloadByte(s.live, g, x) && PayloadByte(s.live, h, x) ==> g == h)
    && (forall b <- s.mem.blocks :: forall g, x: nat :: PayloadByte(s.live, g, x) ==>
          !HeaderByte(b, x) && !(b.free && b.Contains(x)))
    && (forall g, x: nat :: PayloadByte(s.live, g, x) ==> x / 4096 in s.mem.owned)
  }

  /** The block behind a grant. */
  lemma LiveBlock(s: System, g: Grant) returns (i: nat)
    requires Consistent(s) && g in s.live
    ensures i < |s.mem.blocks| && s.mem.blocks[i].Payload() == g.ptr && !s.mem.blocks[i].free
    ensures g.request <= AlignUp(g.request) <= s.mem.blocks[i].size
    ensures IndexOf(s.mem.blocks, g.ptr - HEADER) == i
  {
    assert Backed(Allocated(s.mem.blocks), g);
    var b :| b in Allocated(s.mem.blocks) && b.Payload() == g.ptr && AlignUp(g.request) <= b.size;
    AllocatedMember(s.mem.blocks, b);
    i :| 0 <= i < |s.mem.blocks| && s.mem.blocks[i] == b;
    IndexOfIs(s.mem.blocks, i);
  }

  lemma ConsistentIsSafe(s: System)
    requires Consistent(s)
    ensures Safe(s)
  {
    var bs := s.mem.blocks;
    forall g, h, x: nat | PayloadByte(s.live, g, x) && PayloadByte(s.live, h, x) ensures g == h {
      var i := LiveBlock(s, g);
      var j := LiveBlock(s, h);
      SharedByte(bs, i, j, x);
    }
    forall b, g, x: nat | b in bs && PayloadByte(s.live, g, x)
      ensures !HeaderByte(b, x) && !(b.free && b.Contains(x))
    {
      var i := LiveBlock(s, g);
      var j :| 0 <= j < |bs| && bs[j] == b;
      if b.Contains(x) {
        SharedByte(bs, i, j, x);
      }
    }
    forall g, x: nat | PayloadByte(s.live, g, x) ensures x / 4096 in s.mem.owned {
      var i := LiveBlock(s, g);
      CoversMember(bs, x);
      assert bs[i].Contains(x);
    }
  }

  // ----- steps

  /** `FreeOp` is a holder's release, of null when the pointer is 0. `StaleFreeOp` is one
      of a pointer whose header is not in the list; `found` is what its bytes hold where
      the list does not say. `OtherOp` is anything else that
      happens to the frame allocator. Writes to payloads are not calls. */
  datatype HeapOp =
    | MallocOp(request: nat)
    | FreeOp(grant: Grant)
    | StaleFreeOp(grant: Grant, found: Found)
    | OtherOp(free: set<nat>)

  /** Clients free what they hold (or null), and nobody gives away the heap's frames. */
  ghost predicate ValidOp(s: System, op: HeapOp) {
    match op
    case MallocOp(_) => true
    case FreeOp(g) => g.ptr == 0 || (g in s.live && Listed(s.mem.blocks, g.ptr))
    case StaleFreeOp(g, _) => g in s.live && g.ptr >= HEADER && !Listed(s.mem.blocks, g.ptr)
    case OtherOp(free) => free !! s.mem.owned
  }

  /** The release of an unlisted header makes a link of the list lead to no header.
      What happens after that is not described. */
  predicate BreaksLink(s: System, op: HeapOp) {
    op.StaleFreeOp? && op.grant.ptr >= HEADER && StaleKfree(s.mem, op.grant.ptr - HEADER, op.found).None?
  }

  /** What is held after an allocation returned `ptr`, null being 0. */
  function Granted(live: multiset<Grant>, ptr: nat, request: nat): multiset<Grant> {
    if ptr == 0 then live else live + multiset{Grant(ptr, request)}
  }

  ghost function Step(s: System, op: HeapOp): System {
    match op
    case MallocOp(request) =>
      var (mem, ptr) := Kmalloc(s.mem, request);
      System(mem, Granted(s.live, ptr, request))
    case FreeOp(g) =>
      if g.ptr == 0 || !Listed(s.mem.blocks, g.ptr) then s
      else System(Kfree(s.mem, g.ptr), s.live - multiset{g})
    case StaleFreeOp(g, found) =>
      if g.ptr < HEADER || BreaksLink(s, op) then s
      else System(StaleKfree(s.mem, g.ptr - HEADER, found).value, s.live - multiset{g})
    case OtherOp(free) => s.(mem := s.mem.(free := free))
  }

  /** Nobody holds the payload of a free block. */
  lemma FreeBlockIsUnheld(s: System, i: nat)
    requires Consistent(s) && i < |s.mem.blocks| && s.mem.blocks[i].free
    ensures forall g :: g in s.live ==> g.ptr != s.mem.blocks[i].Payload()
  {
    forall g | g in s.live ensures g.ptr != s.mem.blocks[i].Payload() {
      var j := LiveBlock(s, g);
      if g.ptr == s.mem.blocks[i].Payload() {
        UniqueAddress(s.mem.blocks, i, j);
      }
    }
  }

  lemma StillBacked(before: seq<Block>, after: seq<Block>, g: Grant)
    requires Backed(before, g)
    requires forall b <- before :: b in after || b.Payload() != g.ptr
    ensures Backed(after, g)
  {
    var b :| b in before && b.Payload() == g.ptr && AlignUp(g.request) <= b.size;
    assert b in after;
  }

  lemma StillClaimed(b: Block, before: multiset<Grant>, after: multiset<Grant>)
    requires Claimed(b, before)
    requires forall g :: g in before ==> g in after || g.ptr != b.Payload()
    ensures Claimed(b, after)
  {
    var g :| g in before && g.ptr == b.Payload();
    assert g in after;
  }

  lemma SingleWith(live: multiset<Grant>, grant: Grant)
    requires Single(live) && grant.request > 0 && forall g :: g in live ==> g.ptr != grant.ptr
    ensures Single(live + multiset{grant})
  {
    assert forall g :: (live + multiset{grant})[g] == live[g] + if g == grant then 1 else 0;
  }

  /** One more block and one more grant, at an address that nobody holds. */
  lemma MatchesWith(low: seq<Block>, c: Block, high: seq<Block>, live: multiset<Grant>, request: nat)
    requires Matches(low + high, live) && request > 0 && AlignUp(request) <= c.size
    requires forall g :: g in live ==> g.ptr != c.Payload()
    ensures Matches(low + [c] + high, live + multiset{Grant(c.Payload(), request)})
  {
    var grant := Grant(c.Payload(), request);
    SingleWith(live, grant);
    var before: seq<Block>, after: seq<Block> := low + high, low + [c] + high;
    var live' := live + multiset{grant};
    assert Backed(after, grant) by {
      assert c in after;
    }
    assert Claimed(c, live') by {
      assert grant in live';
    }
    hide Backed, Claimed, Single;
    forall g | g in live' ensures Backed(after, g) {
      if g != grant {
        assert g in live;
        StillBacked(before, after, g);
      }
    }
    forall b | b in after ensures Claimed(b, live') {
      if b != c {
        assert b in before;
        StillClaimed(b, live, live');
      }
    }
  }

  /** Handing out block i of a consistent system. */
  lemma PlaceConsistent(s: System, i: nat, request: nat)
    requires Consistent(s) && request > 0 && i < |s.mem.blocks|
    requires s.mem.blocks[i].free && s.mem.blocks[i].size >= AlignUp(request)
    ensures var bs := Place(s.mem.blocks, i, AlignUp(request));
            && Matches(Allocated(bs), s.live + multiset{Grant(s.mem.blocks[i].Payload(), request)})
            && UsedBytes(bs) == s.mem.used + Carve(s.mem.blocks[i], AlignUp(request))[0].size
  {
    FreeBlockIsUnheld(s, i);
    assert Matches(Allocated(s.mem.blocks), s.live) && s.mem.used == UsedBytes(s.mem.blocks);
    hide *;
    PlaceMatches(s.mem.blocks, i, s.live, request);
  }

  lemma PlaceMatches(bs: seq<Block>, i: nat, live: multiset<Grant>, request: nat)
    requires Matches(Allocated(bs), live) && request > 0
    requires i < |bs| && bs[i].free && bs[i].size >= AlignUp(request)
    requires forall g :: g in live ==> g.ptr != bs[i].Payload()
    ensures var placed := Place(bs, i, AlignUp(request));
            && Matches(Allocated(placed), live + multiset{Grant(bs[i].Payload(), request)})
            && UsedBytes(placed) == UsedBytes(bs) + Carve(bs[i], AlignUp(request))[0].size
  {
    hide Matches, Place, Carve, Allocated, UsedBytes, AlignUp, Covers;
    var size := AlignUp(request);
    RequestFits(request);
    PlaceKeeps(bs, i, size);
    CarveMeaning(bs[i], size);
    MatchesWith(Allocated(bs[..i]), Carve(bs[i], size)[0], Allocated(bs[i + 1..]), live, request);
  }

  /** The same, as a step. */
  lemma FittingConsistent(s: System, i: nat, request: nat)
    requires Consistent(s) && request > 0 && i < |s.mem.blocks|
    requires s.mem.blocks[i].free && s.mem.blocks[i].size >= AlignUp(request)
    ensures var (mem, ptr) := MallocFitting(s.mem, i, AlignUp(request));
            ptr != 0 && Consistent(System(mem, Granted(s.live, ptr, request)))
  {
    RequestFits(request);
    PlaceStructured(s.mem, i, AlignUp(request), s.mem.used + Carve(s.mem.blocks[i], AlignUp(request))[0].size);
    PlaceConsistent(s, i, request);
  }

  /** An expansion by itself changes nothing for the clients, absorbed or not. */
  lemma ExpandConsistent(s: System, size: nat)
    requires Consistent(s)
    ensures Consistent(System(Expand(s.mem, size).0, s.live))
  {
    ExpandStructured(s.mem, size);
    ExpandKeepsAllocated(s.mem, size);
  }

  /** The expansion's block, when it is still listed, has room for the request. */
  lemma ExpandedFits(m: Memory, request: nat)
    requires Structured(m) && request > 0 && !Absorbs(m, request)
    requires FirstFit(m.blocks, AlignUp(request)) == |m.blocks| && Expand(m, AlignUp(request)).1 != 0
    ensures var (m', region) := Expand(m, AlignUp(request)); var j := IndexOf(m'.blocks, region);
            && j < |m'.blocks| && m'.blocks[j] == RegionBlock(region, PagesFor(AlignUp(request)))
            && m'.blocks[j].free && m'.blocks[j].size >= AlignUp(request)
  {
    ExpandedBlock(m, AlignUp(request));
    RequestFits(request);
  }

  /** Allocation by expansion, the block not absorbed. */
  lemma ExpansionConsistent(s: System, request: nat)
    requires Consistent(s) && request > 0 && !Absorbs(s.mem, request)
    requires FirstFit(s.mem.blocks, AlignUp(request)) == |s.mem.blocks|
    ensures Consistent(Step(s, MallocOp(request)))
  {
    hide Expand, Carve, Place, Structured, Matches;
    var size := AlignUp(request);
    var (m', region) := Expand(s.mem, size);
    ExpandConsistent(s, size);
    KmallocStructured(s.mem, request);
    if region != 0 {
      ExpandedFits(s.mem, request);
      PlaceConsistent(System(m', s.live), IndexOf(m'.blocks, region), request);
    }
  }

  /** An allocation without absorption keeps the system consistent. */
  lemma MallocConsistent(s: System, request: nat)
    requires Consistent(s) && !Absorbs(s.mem, request)
    ensures Consistent(Step(s, MallocOp(request)))
  {
    if request > 0 {
      var i := FirstFit(s.mem.blocks, AlignUp(request));
      hide Consistent, Expand, Place, Carve, AlignUp, Absorbs;
      if i < |s.mem.blocks| {
        FittingConsistent(s, i, request);
      } else {
        ExpansionConsistent(s, request);
      }
    }
  }

  /** Releasing an allocated block of the list. */
  lemma KfreeAllocated(m: Memory, ptr: nat, i: nat)
    requires Structured(m) && ptr >= HEADER && i == IndexOf(m.blocks, ptr - HEADER) < |m.blocks|
    requires !m.blocks[i].free
    ensures var freed := m.blocks[i := m.blocks[i].(free := true)]; var m' := Kfree(m, ptr);
            && Structured(m') && m'.used == m.used - m.blocks[i].size
            && Allocated(m'.blocks) == Allocated(freed) && UsedBytes(m'.blocks) == UsedBytes(freed)
  {
    hide Structured, Coalesce, Allocated, UsedBytes, IndexOf;
    KfreeStructured(m, ptr);
  }

  lemma FreeConsistent(s: System, g: Grant)
    requires Consistent(s) && (g.ptr == 0 || g in s.live)
    ensures Consistent(Step(s, FreeOp(g)))
  {
    if g.ptr != 0 {
      var i := LiveBlock(s, g);
      FreedMatches(s, i, g);
      hide Structured, Matches, Kfree, Allocated, UsedBytes, IndexOf;
      KfreeAllocated(s.mem, g.ptr, i);
    }
  }

  /** Marking a held block free, before anything is coalesced. */
  lemma FreedMatches(s: System, i: nat, g: Grant)
    requires Consistent(s) && i < |s.mem.blocks| && !s.mem.blocks[i].free
    requires g in s.live && g.ptr == s.mem.blocks[i].Payload()
    ensures var bs := s.mem.blocks; var freed := bs[i := bs[i].(free := true)];
            && Matches(Allocated(freed), s.live - multiset{g})
            && UsedBytes(freed) == s.mem.used - bs[i].size
  {
    FreedKeeps(s.mem.blocks, i);
    var low, high := Allocated(s.mem.blocks[..i]), Allocated(s.mem.blocks[i + 1..]);
    forall b: Block | b in low + high ensures b.Payload() != s.mem.blocks[i].Payload() {
      OtherAddress(s.mem.blocks, i, b);
    }
    MatchesWithout(low, s.mem.blocks[i], high, s.live, g);
  }

  lemma MatchesWithout(low: seq<Block>, c: Block, high: seq<Block>, live: multiset<Grant>, g: Grant)
    requires Matches(low + [c] + high, live) && g in live && g.ptr == c.Payload()
    requires forall b <- low + high :: b.Payload() != c.Payload()
    ensures Matches(low + high, live - multiset{g})
  {
    var before: seq<Block>, after: seq<Block> := low + [c] + high, low + high;
    var live' := live - multiset{g};
    SingleWithout(live, g);
    hide Backed, Claimed, Single;
    forall h | h in live' ensures Backed(after, h) {
      StillBacked(before, after, h);
    }
    forall b | b in after ensures Claimed(b, live') {
      assert b in before;
      StillClaimed(b, live, live');
    }
  }

  lemma SingleWithout(live: multiset<Grant>, g: Grant)
    requires Single(live) && g in live
    ensures Single(live - multiset{g})
    ensures forall h :: h in live - multiset{g} <==> h in live && h.ptr != g.ptr
  {
  }

  /** An allocation of a consistent system that leaves it so returns null or a pointer
      that nobody holds. */
  lemma GrantIsFresh(s: System, mem: Memory, ptr: nat, request: nat)
    requires Consistent(s) && Consistent(System(mem, Granted(s.live, ptr, request)))
    ensures forall g :: g in s.live ==> g.ptr != ptr
  {
    var grant := Grant(ptr, request);
    forall g | g in s.live ensures g.ptr != ptr {
      if ptr == 0 {
        var i := LiveBlock(s, g);
      } else {
        assert g in s.live + multiset{grant} && grant in s.live + multiset{grant};
        assert (s.live + multiset{grant})[grant] == s.live[grant] + 1;
      }
    }
  }

  /** Every valid call that is not an absorbed allocation keeps the system consistent,
      and what an allocation returns was held by nobody. */
  lemma StepConsistent(s: System, op: HeapOp)
    requires Consistent(s) && ValidOp(s, op)
    requires op.MallocOp? ==> !Absorbs(s.mem, op.request)
    ensures Consistent(Step(s, op))
    ensures op.MallocOp? ==> forall g :: g in s.live ==> g.ptr != Kmalloc(s.mem, op.request).1
  {
    match op
    case MallocOp(request) =>
      MallocConsistent(s, request);
      GrantIsFresh(s, Kmalloc(s.mem, request).0, Kmalloc(s.mem, request).1, request);
    case FreeOp(g) => FreeConsistent(s, g);
    case StaleFreeOp(g, _) =>
      var i := LiveBlock(s, g);
      assert false;
    case OtherOp(_) =>
  }

  /** An absorbed expansion hands out bytes of a block that the list has as free. */
  lemma AbsorptionIsUnsafe(s: System, request: nat)
    requires Consistent(s) && Absorbs(s.mem, request)
    ensures !Safe(Step(s, MallocOp(request)))
    ensures !Listed(Kmalloc(s.mem, request).0.blocks, Kmalloc(s.mem, request).1)
  {
    var size := AlignUp(request);
    var (m', region) := Expand(s.mem, size);
    ExpandedBlock(s.mem, size);
    var n := RegionBlock(region, PagesFor(size));
    var b :| b in m'.blocks && b.free && b.addr < region && b.End() >= n.End();
    var ptr := n.Payload();
    var s' := Step(s, MallocOp(request));
    assert s'.mem.blocks == m'.blocks && Grant(ptr, request) in s'.live;
    assert PayloadByte(s'.live, Grant(ptr, request), ptr);
    assert b.Contains(ptr);
  }

  // ----- runs

  ghost predicate ValidRun(s: System, ops: seq<HeapOp>)
    decreases |ops|
  {
    ops == [] || (ValidOp(s, ops[0]) && ValidRun(Step(s, ops[0]), ops[1..]))
  }

  ghost predicate AlwaysSafe(s: System, ops: seq<HeapOp>)
    decreases |ops|
  {
    Safe(s) && (ops == [] || AlwaysSafe(Step(s, ops[0]), ops[1..]))
  }

  ghost predicate NeverAbsorbs(s: System, ops: seq<HeapOp>)
    decreases |ops|
  {
    ops == [] || ((ops[0].MallocOp? ==> !Absorbs(s.mem, ops[0].request))
                  && NeverAbsorbs(Step(s, ops[0]), ops[1..]))
  }

  ghost function RunOps(s: System, ops: seq<HeapOp>): System
    decreases |ops|
  {
    if ops == [] then s else RunOps(Step(s, ops[0]), ops[1..])
  }

  /** A freshly initialized heap over any frame allocator. */
  function InitialSystem(free: set<nat>): System {
    System(Memory([], 0, 0, {}, free, 0), multiset{})
  }

  /** Every run keeps the clients' memory theirs alone exactly as long as no
      expansion is absorbed. */
  lemma {:induction false} SafeExactlyWithoutAbsorption(s: System, ops: seq<HeapOp>)
    requires Consistent(s) && ValidRun(s, ops)
    ensures AlwaysSafe(s, ops) <==> NeverAbsorbs(s, ops)
    ensures NeverAbsorbs(s, ops) ==> Consistent(RunOps(s, ops))
    decreases |ops|
  {
    ConsistentIsSafe(s);
    if ops != [] {
      var op := ops[0];
      if op.MallocOp? && Absorbs(s.mem, op.request) {
        AbsorptionIsUnsafe(s, op.request);
        assert !Safe(Step(s, op));
      } else {
        StepConsistent(s, op);
        SafeExactlyWithoutAbsorption(Step(s, op), ops[1..]);
      }
    }
  }

  lemma InitialConsistent(free: set<nat>)
    ensures Consistent(InitialSystem(free))
  {
  }

  // ----- the list under every run

  /** In every state of the run the list is ordered and tiles the owned frames, and no
      step makes one of its links lead nowhere. */
  ghost predicate AlwaysStructured(s: System, ops: seq<HeapOp>)
    decreases |ops|
  {
    Structured(s.mem)
    && (ops == [] || (!BreaksLink(s, ops[0]) && AlwaysStructured(Step(s, ops[0]), ops[1..])))
  }

  /** No unlisted header is released while a listed one has a zero over its flag byte. */
  ghost predicate NeverDamages(s: System, ops: seq<HeapOp>)
    decreases |ops|
  {
    ops == []
    || ((ops[0].StaleFreeOp? && ops[0].grant.ptr >= HEADER ==>
          !Damages(s.mem.blocks, ops[0].grant.ptr - HEADER))
        && NeverDamages(Step(s, ops[0]), ops[1..]))
  }

  /** Only headers of the list are released. */
  ghost predicate OnlyListedFreed(ops: seq<HeapOp>) {
    forall op <- ops :: !op.StaleFreeOp?
  }

  /** Payload pointers are multiples of 8, so that a header can lie over another only at
      a distance of whole fields. */
  ghost predicate LiveGranular(live: multiset<Grant>) {
    forall g :: g in live ==> g.ptr % 8 == 0
  }

  lemma PayloadGranular(addr: nat)
    requires addr % 8 == 0 || addr % 4096 == 0
    ensures (addr + HEADER) % 8 == 0
  {
    if addr % 8 == 0 {
      assert addr == 8 * (addr / 8);
      EightTimes(addr + HEADER, addr / 8 + 3);
    } else {
      assert addr == 4096 * (addr / 4096);
      EightTimes(addr + HEADER, 512 * (addr / 4096) + 3);
    }
  }

  lemma RegionPaged(m: Memory, size: nat)
    requires Structured(m)
    ensures Expand(m, size).1 % 4096 == 0
  {
    if Expand(m, size).1 != 0 {
      TakenRegionIsFresh(m, PagesFor(size));
    }
  }

  lemma KmallocPointer(m: Memory, request: nat)
    ensures var ptr := Kmalloc(m, request).1; var i := FirstFit(m.blocks, AlignUp(request));
            || ptr == 0
            || (i < |m.blocks| && ptr == m.blocks[i].addr + HEADER)
            || ptr == Expand(m, AlignUp(request)).1 + HEADER
  {
    hide FirstFit, AlignUp, Expand, Place, Carve, PagesFor;
  }

  lemma KmallocGranular(m: Memory, request: nat)
    requires Structured(m)
    ensures Kmalloc(m, request).1 % 8 == 0
  {
    hide Structured, Kmalloc, Expand, FirstFit, AlignUp;
    KmallocPointer(m, request);
    RegionPaged(m, AlignUp(request));
    PayloadGranular(Expand(m, AlignUp(request)).1);
    var i := FirstFit(m.blocks, AlignUp(request));
    if i < |m.blocks| {
      BlockGranular(m, i);
      PayloadGranular(m.blocks[i].addr);
    }
  }

  lemma BlockGranular(m: Memory, i: nat)
    requires Structured(m) && i < |m.blocks|
    ensures m.blocks[i].addr % 8 == 0
  {
    GranularMember(m.blocks, i);
  }

  lemma StepLiveGranular(s: System, op: HeapOp)
    requires Structured(s.mem) && LiveGranular(s.live)
    ensures LiveGranular(Step(s, op).live)
  {
    hide Structured, Kmalloc, Kfree, StaleKfree, BreaksLink, Listed;
    if op.MallocOp? {
      KmallocGranular(s.mem, op.request);
    }
  }

  lemma ListedStructured(s: System, op: HeapOp)
    requires Structured(s.mem) && ValidOp(s, op) && (op.MallocOp? || op.FreeOp?)
    ensures Structured(Step(s, op).mem)
  {
    match op
    case MallocOp(request) =>
      KmallocStructured(s.mem, request);
      hide Structured, Kmalloc;
    case FreeOp(g) =>
      if g.ptr != 0 {
        KfreeStructured(s.mem, g.ptr);
      }
      hide Structured, Kfree, Listed;
  }

  lemma StaleStructured(s: System, op: HeapOp)
    requires Structured(s.mem) && ValidOp(s, op) && op.StaleFreeOp?
    ensures !BreaksLink(s, op) && Structured(Step(s, op).mem) <==> !Damages(s.mem.blocks, op.grant.ptr - HEADER)
  {
    hide Structured, StaleKfree, Damages, Listed;
    StaleKfreeMeaning(s.mem, op.grant.ptr - HEADER, op.found);
  }

  lemma OtherStructured(m: Memory, free: set<nat>)
    requires Structured(m) && free !! m.owned
    ensures Structured(m.(free := free))
  {
    hide Spaced, Paged, Granular, UsedBytes, FreeBytes, Covers;
  }

  /** One step keeps the list in order exactly when it does not damage it. */
  lemma StepStructured(s: System, op: HeapOp)
    requires Structured(s.mem) && ValidOp(s, op)
    ensures !BreaksLink(s, op) && Structured(Step(s, op).mem) <==>
            !(op.StaleFreeOp? && Damages(s.mem.blocks, op.grant.ptr - HEADER))
  {
    hide Structured, Damages, Listed, Kmalloc, Kfree, StaleKfree;
    match op
    case MallocOp(_) => ListedStructured(s, op);
    case FreeOp(_) => ListedStructured(s, op);
    case StaleFreeOp(_, _) => StaleStructured(s, op);
    case OtherOp(free) => OtherStructured(s.mem, free);
  }

  /** Over every run of valid calls, absorbed expansions included, the list stays ordered
      and tiles exactly the owned frames if and only if no release of an unlisted header
      damages it. */
  lemma {:induction false} RunsStayStructured(s: System, ops: seq<HeapOp>)
    requires Structured(s.mem) && LiveGranular(s.live) && ValidRun(s, ops)
    ensures AlwaysStructured(s, ops) <==> NeverDamages(s, ops)
    ensures NeverDamages(s, ops) ==> Structured(RunOps(s, ops).mem) && LiveGranular(RunOps(s, ops).live)
    decreases |ops|
  {
    hide Structured, LiveGranular, Step, Damages, BreaksLink;
    if ops != [] {
      StepStructured(s, ops[0]);
      StepLiveGranular(s, ops[0]);
      if !BreaksLink(s, ops[0]) && Structured(Step(s, ops[0]).mem) {
        RunsStayStructured(Step(s, ops[0]), ops[1..]);
      }
    }
  }

  /** Releasing only headers of the list, as every run without absorption does, is
      enough. */
  lemma {:induction false} ListedReleasesKeepStructure(s: System, ops: seq<HeapOp>)
    requires Structured(s.mem) && LiveGranular(s.live) && ValidRun(s, ops)
    requires OnlyListedFreed(ops) || (Consistent(s) && NeverAbsorbs(s, ops))
    ensures AlwaysStructured(s, ops)
    decreases |ops|
  {
    hide Structured, LiveGranular, Step, Damages, BreaksLink, Consistent;
    if ops != [] {
      if Consistent(s) && NeverAbsorbs(s, ops) {
        StepConsistent(s, ops[0]);
        NoStaleFree(s, ops[0]);
      }
      StepStructured(s, ops[0]);
      StepLiveGranular(s, ops[0]);
      ListedReleasesKeepStructure(Step(s, ops[0]), ops[1..]);
    }
  }

  lemma NoStaleFree(s: System, op: HeapOp)
    requires Consistent(s) && ValidOp(s, op)
    ensures !op.StaleFreeOp?
  {
    if op.StaleFreeOp? {
      var i := LiveBlock(s, op.grant);
    }
  }

  // ----- a repaired variant, which is not what the source does

  /** Looking for a first fit again after an expansion, instead of handing out the
      expansion's block. */
  ghost function RetryingKmalloc(m: Memory, request: nat): (Memory, nat) {
    if request == 0 then (m, 0)
    else
      var size := AlignUp(request);
      var m' := if FirstFit(m.blocks, size) < |m.blocks| then m else Expand(m, size).0;
      var i := FirstFit(m'.blocks, size);
      if i < |m'.blocks| then MallocFitting(m', i, size) else (m', 0)
  }

  ghost function RetryingStep(s: System, request: nat): System {
    var (mem, ptr) := RetryingKmalloc(s.mem, request);
    System(mem, Granted(s.live, ptr, request))
  }

  /** After a successful expansion some block fits, absorbed or not. */
  lemma ExpansionLeavesFit(m: Memory, request: nat)
    requires Structured(m) && Expand(m, AlignUp(request)).1 != 0
    ensures var m' := Expand(m, AlignUp(request)).0; FirstFit(m'.blocks, AlignUp(request)) < |m'.blocks|
  {
    ExpandedBlock(m, AlignUp(request));
    RequestFits(request);
    var (m', region) := Expand(m, AlignUp(request));
    var j := IndexOf(m'.blocks, region);
    if j == |m'.blocks| {
      var b :| b in m'.blocks && b.free && b.addr < region
               && b.End() >= RegionBlock(region, PagesFor(AlignUp(request))).End();
      var i :| 0 <= i < |m'.blocks| && m'.blocks[i] == b;
    }
  }

  /** The repaired variant needs no condition: it keeps every consistent heap so,
      absorption or not, and fails exactly when the source does. */
  lemma RetryingIsSafe(s: System, request: nat)
    requires Consistent(s)
    ensures Consistent(RetryingStep(s, request)) && Safe(RetryingStep(s, request))
    ensures forall g :: g in s.live ==> g.ptr != RetryingKmalloc(s.mem, request).1
    ensures RetryingKmalloc(s.mem, request).1 == 0 <==> Kmalloc(s.mem, request).1 == 0
  {
    assert Structured(s.mem);
    hide Structured, Consistent, Matches, Expand, Safe, AlignUp, Place, Carve, MallocExpanding;
    if request > 0 {
      var size := AlignUp(request);
      if FirstFit(s.mem.blocks, size) < |s.mem.blocks| {
        FittingConsistent(s, FirstFit(s.mem.blocks, size), request);
      } else {
        var m' := Expand(s.mem, size).0;
        ExpandConsistent(s, size);
        RetryingFails(s.mem, request);
        if FirstFit(m'.blocks, size) < |m'.blocks| {
          FittingConsistent(System(m', s.live), FirstFit(m'.blocks, size), request);
        }
      }
    }
    ConsistentIsSafe(RetryingStep(s, request));
    GrantIsFresh(s, RetryingKmalloc(s.mem, request).0, RetryingKmalloc(s.mem, request).1, request);
  }

  /** When no block fits and no frames are left, none fits afterwards. */
  lemma RetryingFails(m: Memory, request: nat)
    requires Structured(m) && request > 0 && FirstFit(m.blocks, AlignUp(request)) == |m.blocks|
    ensures Expand(m, AlignUp(request)).1 == 0 <==> RetryingKmalloc(m, request).1 == 0
    ensures Expand(m, AlignUp(request)).1 == 0 <==> Kmalloc(m, request).1 == 0
  {
    if Expand(m, AlignUp(request)).1 != 0 {
      ExpansionLeavesFit(m, request);
    }
  }

  /** A call of the repaired variant; releases are the source's. */
  ghost function RetryingCall(s: System, op: HeapOp): System {
    if op.MallocOp? then RetryingStep(s, op.request) else Step(s, op)
  }

  ghost predicate ValidRetryingRun(s: System, ops: seq<HeapOp>)
    decreases |ops|
  {
    ops == [] || (ValidOp(s, ops[0]) && ValidRetryingRun(RetryingCall(s, ops[0]), ops[1..]))
  }

  ghost function RetryingRun(s: System, ops: seq<HeapOp>): System
    decreases |ops|
  {
    if ops == [] then s else RetryingRun(RetryingCall(s, ops[0]), ops[1..])
  }

  /** Every state of a run of the repaired variant is safe. */
  ghost predicate AlwaysSafeRetrying(s: System, ops: seq<HeapOp>)
    decreases |ops|
  {
    Safe(s) && (ops == [] || AlwaysSafeRetrying(RetryingCall(s, ops[0]), ops[1..]))
  }

  /** Over every run of allocations and releases the repaired variant keeps the
      clients' memory theirs alone, and no release meets an unlisted header. */
  lemma {:induction false} RetryingRunsAreSafe(s: System, ops: seq<HeapOp>)
    requires Consistent(s) && ValidRetryingRun(s, ops)
    ensures AlwaysSafeRetrying(s, ops) && Consistent(RetryingRun(s, ops)) && OnlyListedFreed(ops)
    decreases |ops|
  {
    hide Consistent, Safe, RetryingStep, Step, ValidOp;
    ConsistentIsSafe(s);
    if ops != [] {
      NoStaleFree(s, ops[0]);
      if ops[0].MallocOp? {
        RetryingIsSafe(s, ops[0].request);
      } else {
        StepConsistent(s, ops[0]);
      }
      RetryingRunsAreSafe(RetryingCall(s, ops[0]), ops[1..]);
    }
  }

  // ----- bytes

  /** The counters: `used` is what the clients' blocks hold, and what the heap reports
      as free is the free payload plus a header for each listed block, less one for
      each expansion. It underflows exactly when merges across regions have gained
      more headers than there is free payload. */
  lemma Conservation(s: System)
    requires Consistent(s)
    ensures s.mem.total - s.mem.used
         == FreeBytes(s.mem.blocks) + HEADER * (|s.mem.blocks| - s.mem.expansions)
    ensures s.mem.used <= s.mem.total <==>
            HEADER * (s.mem.expansions - |s.mem.blocks|) <= FreeBytes(s.mem.blocks)
  {
  }

  /** And so after every run without absorption. */
  lemma RunsConserve(s: System, ops: seq<HeapOp>)
    requires Consistent(s) && ValidRun(s, ops) && NeverAbsorbs(s, ops)
    ensures var m := RunOps(s, ops).mem;
            && m.used == UsedBytes(m.blocks)
            && m.total - m.used == FreeBytes(m.blocks) + HEADER * (|m.blocks| - m.expansions)
            && (m.used <= m.total <==> HEADER * (m.expansions - |m.blocks|) <= FreeBytes(m.blocks))
  {
    SafeExactlyWithoutAbsorption(s, ops);
    hide NeverAbsorbs, ValidRun, AlwaysSafe, RunOps, Matches;
    Conservation(RunOps(s, ops));
  }

  // ----- allocation and immediate release

  /** Served without expansion, a request gets the lowest block that can hold it, of
      at most 48 bytes more than the rounded request. */
  lemma MallocTakesLowest(m: Memory, request: nat)
    requires Structured(m) && request > 0
    requires FirstFit(m.blocks, AlignUp(request)) < |m.blocks|
    ensures var (m', ptr) := Kmalloc(m, request);
            && Listed(m'.blocks, ptr)
            && var b := m'.blocks[IndexOf(m'.blocks, ptr - HEADER)];
               !b.free && AlignUp(request) <= b.size <= AlignUp(request) + 48
               && forall c <- m.blocks :: c.free && c.size >= AlignUp(request) ==> b.addr <= c.addr
  {
    var size := AlignUp(request);
    var i := FirstFit(m.blocks, size);
    RequestFits(request);
    GranularMember(m.blocks, i);
    CarveGranular(m.blocks[i], size);
    PlacedBlock(m.blocks, i, size);
    LowestFit(m.blocks, size);
    hide Structured, Place, Carve;
  }

  lemma LowestFit(bs: seq<Block>, size: nat)
    requires Spaced(bs) && FirstFit(bs, size) < |bs|
    ensures forall c <- bs :: c.free && c.size >= size ==> bs[FirstFit(bs, size)].addr <= c.addr
  {
    var i := FirstFit(bs, size);
    forall c | c in bs && c.free && c.size >= size ensures bs[i].addr <= c.addr {
      var j :| 0 <= j < |bs| && bs[j] == c;
      if i < j {
        SpacedOrdered(bs, i, j);
      }
    }
  }

  /** On a coalesced heap, releasing at once what was served without expansion
      restores the whole list and the counters. */
  lemma MallocFree(m: Memory, request: nat)
    requires Structured(m) && Coalesced(m.blocks) && request > 0
    requires FirstFit(m.blocks, AlignUp(request)) < |m.blocks|
    ensures Listed(Kmalloc(m, request).0.blocks, Kmalloc(m, request).1)
    ensures Kfree(Kmalloc(m, request).0, Kmalloc(m, request).1) == m
  {
    var size := AlignUp(request);
    var i := FirstFit(m.blocks, size);
    RequestFits(request);
    PlacedBlock(m.blocks, i, size);
    RejoinsCarved(m.blocks, i, size);
    hide *;
    PlaceReleased(m, i, size);
    FittingMalloc(m, request);
  }

  lemma FittingMalloc(m: Memory, request: nat)
    requires request > 0 && FirstFit(m.blocks, AlignUp(request)) < |m.blocks|
    ensures Kmalloc(m, request) == MallocFitting(m, FirstFit(m.blocks, AlignUp(request)), AlignUp(request))
  {
    hide FirstFit, AlignUp, MallocFitting;
  }

  /** Releasing block i right after it was handed out, when it joins back. */
  lemma PlaceReleased(m: Memory, i: nat, size: nat)
    requires i < |m.blocks|
    requires var out := Place(m.blocks, i, size);
             && i < |out| && out[i] == Carve(m.blocks[i], size)[0] && !out[i].free
             && IndexOf(out, m.blocks[i].addr) == i
             && Coalesce(out[i := out[i].(free := true)]) == m.blocks
    ensures var (m', ptr) := MallocFitting(m, i, size); Listed(m'.blocks, ptr) && Kfree(m', ptr) == m
  {
    hide Place, Coalesce, Carve, IndexOf;
  }

  lemma PlacedBlock(bs: seq<Block>, i: nat, size: nat)
    requires Spaced(bs) && Paged(bs) && i < |bs| && bs[i].free && bs[i].size >= AlignUp(size)
    ensures var out := Place(bs, i, size);
            && i < |out| && out[i] == Carve(bs[i], size)[0] && IndexOf(out, bs[i].addr) == i
            && out[i].addr == bs[i].addr && !out[i].free && AlignUp(size) <= out[i].size
  {
    CarveMeaning(bs[i], size);
    PlaceShape(bs, i, size);
    var out := Place(bs, i, size);
    assert out[i] == Carve(bs[i], size)[0];
    IndexOfIs(out, i);
  }

  /** Marked free again, the carved pieces join back into the block they came from. */
  lemma RejoinsCarved(bs: seq<Block>, i: nat, size: nat)
    requires Coalesced(bs) && i < |bs| && bs[i].free && bs[i].size >= AlignUp(size)
    requires AlignUp(AlignUp(size)) == AlignUp(size)
    ensures var out := Place(bs, i, size); i < |out| && Coalesce(out[i := out[i].(free := true)]) == bs
  {
    var pre, b, post := bs[..i], bs[i], bs[i + 1..];
    var out := Place(bs, i, size);
    var c := out[i].(free := true);
    SplitAround(bs, i);
    CoalescedParts(bs, i);
    if |Carve(b, size)| == 1 {
      assert out[i := c] == bs;
      CoalesceFixpoint(bs);
    } else {
      var r := Carve(b, size)[1];
      assert out[i := c] == pre + ([c, r] + post);
      assert i > 0 ==> !Mergeable(bs[i - 1], bs[i - 1 + 1]);
      RejoinsPieces(pre, b, c, r, post);
      assert pre + ([b] + post) == bs;
    }
  }

  lemma RejoinsPieces(pre: seq<Block>, b: Block, c: Block, r: Block, post: seq<Block>)
    requires Coalesced(pre) && Coalesced([b] + post) && b.free
    requires Mergeable(c, r) && Merge(c, r) == b
    requires pre != [] ==> !Mergeable(Last(pre), b)
    ensures Coalesce(pre + ([c, r] + post)) == pre + ([b] + post)
  {
    var rest := [c, r] + post;
    assert rest[2..] == post;
    CoalesceFixpoint([b] + post);
    if pre == [] {
      assert pre + rest == rest;
    } else {
      CoalesceFixpoint(pre);
      CoalesceConcat(pre, rest);
      CoalesceStep(Last(pre), rest);
      assert Front(pre) + ([Last(pre)] + ([b] + post)) == pre + ([b] + post);
    }
  }

  lemma CoalescedParts(bs: seq<Block>, i: nat)
    requires Coalesced(bs) && i < |bs|
    ensures Coalesced(bs[..i]) && Coalesced([bs[i]] + bs[i + 1..])
  {
    var rest := [bs[i]] + bs[i + 1..];
    assert rest == bs[i..];
    forall k | 0 <= k < i - 1 ensures !Mergeable(bs[..i][k], bs[..i][k + 1]) {
      assert !Mergeable(bs[k], bs[k + 1]);
    }
    forall k | 0 <= k < |rest| - 1 ensures !Mergeable(rest[k], rest[k + 1]) {
      assert !Mergeable(bs[i + k], bs[i + k + 1]);
    }
  }
}
