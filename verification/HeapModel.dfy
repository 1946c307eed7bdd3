/** The heap allocator (src/heap.c) as a function on the block list, its counters
    and the free page frames, and what every operation keeps. */
module HeapModel {
  import opened Blocks
  import Frames

  /** `owned` are the frames obtained from the frame allocator, `expansions` how
      many times; `free` are the frames that allocator still has. */
  datatype Memory = Memory(
    blocks: seq<Block>, total: nat, used: int,
    owned: set<nat>, free: set<nat>, expansions: nat)

  // ----- the operations

  /** The first block that is free and large enough, or |bs|. */
  function FirstFit(bs: seq<Block>, size: nat): (i: nat)
    ensures i <= |bs|
    ensures i < |bs| ==> bs[i].free && bs[i].size >= size
    ensures forall j :: 0 <= j < i ==> !(bs[j].free && bs[j].size >= size)
  {
    if bs == [] || (bs[0].free && bs[0].size >= size) then 0 else 1 + FirstFit(bs[1..], size)
  }

  /** The block whose header is at `addr`, or |bs|. */
  function IndexOf(bs: seq<Block>, addr: nat): (i: nat)
    ensures i <= |bs|
    ensures i < |bs| ==> bs[i].addr == addr
    ensures forall j :: 0 <= j < i ==> bs[j].addr != addr
  {
    if bs == [] || bs[0].addr == addr then 0 else 1 + IndexOf(bs[1..], addr)
  }

  /** How many leading blocks lie below `addr`. */
  function Below(bs: seq<Block>, addr: nat): (i: nat)
    ensures i <= |bs|
    ensures i < |bs| ==> bs[i].addr >= addr
    ensures forall j :: 0 <= j < i ==> bs[j].addr < addr
  {
    if bs == [] || bs[0].addr >= addr then 0 else 1 + Below(bs[1..], addr)
  }

  function Insert(bs: seq<Block>, b: Block): seq<Block> {
    var k := Below(bs, b.addr);
    bs[..k] + [b] + bs[k..]
  }

  /** What becomes of a block that is handed out: it is split when the rest can hold
      a header and the smallest payload. */
  function Carve(b: Block, size: nat): seq<Block> {
    if b.size < AlignUp(size) + HEADER + MIN_SPLIT then [b.(free := false)]
    else [Block(b.addr, AlignUp(size), false),
          Block(b.Payload() + AlignUp(size), b.size - AlignUp(size) - HEADER, true)]
  }

  function Place(bs: seq<Block>, i: nat, size: nat): seq<Block>
    requires i < |bs|
  {
    bs[..i] + Carve(bs[i], size) + bs[i + 1..]
  }

  function PagesFor(size: nat): (pages: nat)
    ensures size <= pages * 4096 - HEADER
    ensures pages > 0
  {
    (AlignUp(size + HEADER) + 4095) / 4096
  }

  /** The fewest frames that hold the request and a header. */
  lemma PagesForMeaning(size: nat, pages: nat)
    ensures pages == PagesFor(size) <==> (pages - 1) * 4096 < size + HEADER <= pages * 4096
  {
    AlignUpMeaning(size + HEADER);
    FewestPages(size + HEADER, AlignUp(size + HEADER), pages);
  }

  /** Rounding to 16 before rounding to 4096 changes nothing. */
  lemma FewestPages(n: nat, rounded: nat, pages: nat)
    requires n > 0 && rounded % 16 == 0 && n <= rounded < n + 16
    ensures pages == (rounded + 4095) / 4096 <==> (pages - 1) * 4096 < n <= pages * 4096
  {
    var k, q := rounded / 16, (rounded + 4095) / 4096;
    assert rounded == 16 * k;
    assert 4096 * q - 4096 < rounded <= 4096 * q;
    assert 256 * q - 256 < k <= 256 * q;
  }

  /** The single block that a region of whole pages starts as. */
  function RegionBlock(region: nat, pages: nat): (b: Block)
    requires pages > 0
    ensures b.size % 16 == 8
  {
    Block(region, pages * 4096 - HEADER, true)
  }

  /** Obtains the frames for a request; 0 when there are none. */
  ghost function Obtain(m: Memory, size: nat): (Memory, nat) {
    var pages := PagesFor(size);
    var (free, region) := Frames.Take(m.free, pages);
    if region == 0 then (m.(free := free), 0)
    else
      (m.(total := m.total + RegionBlock(region, pages).size, free := free,
          owned := m.owned + Frames.Run(region / 4096, pages), expansions := m.expansions + 1),
       region)
  }

  /** Obtains a region, inserts it as one block, coalesces the whole list. */
  ghost function Expand(m: Memory, size: nat): (Memory, nat) {
    var (m', region) := Obtain(m, size);
    if region == 0 then (m', 0)
    else (m'.(blocks := Coalesce(Insert(m'.blocks, RegionBlock(region, PagesFor(size))))), region)
  }

  /** Hands out block i. */
  function MallocFitting(m: Memory, i: nat, size: nat): (Memory, nat)
    requires i < |m.blocks|
  {
    (m.(blocks := Place(m.blocks, i, size), used := m.used + Carve(m.blocks[i], size)[0].size),
     m.blocks[i].Payload())
  }

  /** Expands and hands out the expansion's block. When it was absorbed by its
      predecessor, the stale header is carved all the same, and the list does not
      notice. */
  ghost function MallocExpanding(m: Memory, size: nat): (Memory, nat) {
    var (m', region) := Expand(m, size);
    if region == 0 then (m', 0)
    else
      var b := RegionBlock(region, PagesFor(size));
      var j := IndexOf(m'.blocks, region);
      (m'.(blocks := if j < |m'.blocks| then Place(m'.blocks, j, size) else m'.blocks,
           used := m'.used + Carve(b, size)[0].size),
       b.Payload())
  }

  /** The memory after an allocation, and the payload pointer (0 for null). */
  ghost function Kmalloc(m: Memory, request: nat): (Memory, nat) {
    if request == 0 then (m, 0)
    else
      var size := AlignUp(request);
      var i := FirstFit(m.blocks, size);
      if i < |m.blocks| then MallocFitting(m, i, size) else MallocExpanding(m, size)
  }

  predicate Listed(bs: seq<Block>, ptr: nat) {
    ptr >= HEADER && IndexOf(bs, ptr - HEADER) < |bs|
  }

  function Kfree(m: Memory, ptr: nat): Memory
    requires ptr == 0 || Listed(m.blocks, ptr)
  {
    if ptr == 0 then m
    else
      var i := IndexOf(m.blocks, ptr - HEADER);
      if m.blocks[i].free then m
      else m.(blocks := Coalesce(m.blocks[i := m.blocks[i].(free := true)]),
              used := m.used - m.blocks[i].size)
  }

  // ----- the structural invariant, kept by every operation without exception

  /** The list starts and ends on page boundaries. */
  predicate Paged(bs: seq<Block>) {
    bs == [] || (bs[0].addr % 4096 == 0 && Last(bs).End() % 4096 == 0)
  }

  /** The blocks tile exactly the owned frames. */
  ghost predicate Tiles(bs: seq<Block>, owned: set<nat>) {
    forall x: nat :: Covers(bs, x) <==> x / 4096 in owned
  }

  ghost predicate Structured(m: Memory) {
    && Spaced(m.blocks)
    && Paged(m.blocks)
    && Granular(m.blocks)
    && Tiles(m.blocks, m.owned)
    && m.owned !! m.free
    && UsedBytes(m.blocks) + FreeBytes(m.blocks) + HEADER * |m.blocks|
       == m.total + HEADER * m.expansions
  }

  // ----- lemmas about the pieces

  lemma UniqueAddress(bs: seq<Block>, i: nat, j: nat)
    requires Spaced(bs) && i < |bs| && j < |bs| && bs[i].addr == bs[j].addr
    ensures i == j
  {
    if i < j {
      SpacedOrdered(bs, i, j);
    } else if j < i {
      SpacedOrdered(bs, j, i);
    }
  }

  lemma IndexOfIs(bs: seq<Block>, i: nat)
    requires Spaced(bs) && i < |bs|
    ensures IndexOf(bs, bs[i].addr) == i
  {
    UniqueAddress(bs, i, IndexOf(bs, bs[i].addr));
  }

  /** Splitting bs around position i. */
  lemma SplitAround(bs: seq<Block>, i: nat)
    requires i < |bs|
    ensures bs == bs[..i] + [bs[i]] + bs[i + 1..]
  {
  }

  lemma SurroundedMeasures(pre: seq<Block>, mid: seq<Block>, post: seq<Block>)
    ensures forall x :: Covers(pre + mid + post, x) <==> Covers(pre, x) || Covers(mid, x) || Covers(post, x)
    ensures Allocated(pre + mid + post) == Allocated(pre) + Allocated(mid) + Allocated(post)
    ensures UsedBytes(pre + mid + post) == UsedBytes(pre) + UsedBytes(mid) + UsedBytes(post)
    ensures FreeBytes(pre + mid + post) == FreeBytes(pre) + FreeBytes(mid) + FreeBytes(post)
  {
    ConcatMeasures(pre, mid);
    ConcatMeasures(pre + mid, post);
  }

  /** Only the two ends of what stands between matter to its surroundings. */
  lemma SurroundedSpaced(pre: seq<Block>, mid: seq<Block>, post: seq<Block>)
    requires mid != []
    ensures Spaced(pre + mid + post) <==>
            && Spaced(pre) && Spaced(mid) && Spaced(post)
            && (pre == [] || Apart(Last(pre), mid[0]))
            && (post == [] || Apart(Last(mid), post[0]))
  {
    ConcatSpaced(pre, mid);
    ConcatSpaced(pre + mid, post);
    assert Last(pre + mid) == Last(mid);
  }

  /** Carving a free block that is large enough keeps its bytes and splits off one
      allocated block. */
  lemma CarveMeaning(b: Block, size: nat)
    requires b.free && b.size >= AlignUp(size)
    ensures var c := Carve(b, size);
            && 1 <= |c| <= 2
            && c[0].addr == b.addr && !c[0].free && AlignUp(size) <= c[0].size
            && Last(c).End() == b.End()
            && (|c| == 2 ==> c[0].size == AlignUp(size) && c[1].size >= 32)
            && (|c| == 1 ==> b.size < AlignUp(size) + 56)
            && Spaced(c)
            && Allocated(c) == [c[0]]
            && UsedBytes(c) == c[0].size
            && UsedBytes(c) + FreeBytes(c) + HEADER * |c| == b.size + HEADER
            && (forall x :: Covers(c, x) <==> b.Contains(x))
  {
    var c := Carve(b, size);
    if |c| == 2 {
      OneFreeBlock(c[1]);
      assert c[1..] == [c[1]];
    } else {
      assert c[1..] == [];
    }
  }

  /** The block handed out exceeds the rounded request by at most 48 bytes. */
  lemma CarveGranular(b: Block, size: nat)
    requires b.size >= AlignUp(size) && b.addr % 8 == 0 && b.size % 8 == 0
    ensures Granular(Carve(b, size)) && Carve(b, size)[0].size <= AlignUp(size) + 48
  {
    AlignUpMeaning(size);
    CarveArithmetic(b, AlignUp(size));
    var c := Carve(b, size);
    if |c| == 2 {
      assert c[1..] == [c[1]] && [c[1]][1..] == [];
    } else {
      assert c[1..] == [];
    }
  }

  lemma CarveArithmetic(b: Block, aligned: nat)
    requires b.size >= aligned && b.addr % 8 == 0 && b.size % 8 == 0 && aligned % 8 == 0
    ensures b.size < aligned + HEADER + MIN_SPLIT ==> b.size <= aligned + 48
    ensures (b.addr + HEADER + aligned) % 8 == 0 && (b.size - aligned - HEADER) % 8 == 0
  {
  }

  lemma PlaceShape(bs: seq<Block>, i: nat, size: nat)
    requires Spaced(bs) && Paged(bs)
    requires i < |bs| && bs[i].free && bs[i].size >= AlignUp(size)
    ensures Spaced(Place(bs, i, size)) && Paged(Place(bs, i, size))
  {
    var pre, b, post := bs[..i], bs[i], bs[i + 1..];
    var c := Carve(b, size);
    SplitAround(bs, i);
    CarveMeaning(b, size);
    SurroundedSpaced(pre, [b], post);
    SurroundedSpaced(pre, c, post);
    var out := pre + c + post;
    assert out == Place(bs, i, size);
    assert Last(out) == if post == [] then Last(c) else Last(post);
    assert Last(bs) == if post == [] then b else Last(post);
    assert out[0] == if pre == [] then c[0] else pre[0];
  }

  lemma PlaceGranular(bs: seq<Block>, i: nat, size: nat)
    requires Granular(bs)
    requires i < |bs| && bs[i].free && bs[i].size >= AlignUp(size)
    ensures Granular(Place(bs, i, size))
  {
    var pre, b, post := bs[..i], bs[i], bs[i + 1..];
    var c := Carve(b, size);
    SplitAround(bs, i);
    ConcatGranular(pre, [b]);
    ConcatGranular(pre + [b], post);
    CarveGranular(b, size);
    ConcatGranular(pre, c);
    ConcatGranular(pre + c, post);
  }

  lemma PlaceKeeps(bs: seq<Block>, i: nat, size: nat)
    requires i < |bs| && bs[i].free && bs[i].size >= AlignUp(size)
    ensures forall x :: Covers(Place(bs, i, size), x) <==> Covers(bs, x)
    ensures UsedBytes(Place(bs, i, size)) == UsedBytes(bs) + Carve(bs[i], size)[0].size
    ensures UsedBytes(Place(bs, i, size)) + FreeBytes(Place(bs, i, size)) + HEADER * |Place(bs, i, size)|
         == UsedBytes(bs) + FreeBytes(bs) + HEADER * |bs|
    ensures Allocated(bs) == Allocated(bs[..i]) + Allocated(bs[i + 1..])
    ensures Allocated(Place(bs, i, size))
         == Allocated(bs[..i]) + [Carve(bs[i], size)[0]] + Allocated(bs[i + 1..])
  {
    var pre, b, post := bs[..i], bs[i], bs[i + 1..];
    SplitAround(bs, i);
    CarveMeaning(b, size);
    SurroundedMeasures(pre, [b], post);
    SurroundedMeasures(pre, Carve(b, size), post);
    OneFreeBlock(b);
  }

  lemma OneFreeBlock(b: Block)
    requires b.free
    ensures Allocated([b]) == [] && UsedBytes([b]) == 0 && FreeBytes([b]) == b.size
    ensures forall x :: Covers([b], x) <==> b.Contains(x)
  {
    assert [b][1..] == [];
  }
}
