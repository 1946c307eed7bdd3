/** Address-ordered lists of heap blocks (src/heap.c) as values: the bytes they
    cover, coalescing, and what coalescing keeps. */
module Blocks {
  // The alignment, 16, and the page size, 4096, are written as literals wherever they
  // multiply or divide, which keeps the arithmetic linear.
  const HEADER: nat := 24
  const MIN_SPLIT: nat := 32

  datatype Block = Block(addr: nat, size: nat, free: bool) {
    function Payload(): nat { addr + HEADER }

    function End(): nat { addr + HEADER + size }

    predicate Contains(x: nat) { addr <= x < End() }
  }

  function AlignUp(n: nat): nat {
    (n + 15) / 16 * 16
  }

  lemma AlignUpMeaning(n: nat)
    ensures AlignUp(n) % 16 == 0 && AlignUp(n) % 8 == 0 && n <= AlignUp(n) < n + 16
    ensures n % 16 == 0 <==> AlignUp(n) == n
  {
    RoundedUp(n);
    hide AlignUp;
    var q := (n + 15) / 16;
    SixteenTimes(AlignUp(n), q);
    EightTimes(AlignUp(n), 2 * q);
    if n % 16 == 0 {
      assert n == 16 * (n / 16);
    }
  }

  lemma RoundedUp(n: nat)
    ensures AlignUp(n) == 16 * ((n + 15) / 16) && n <= AlignUp(n) < n + 16
  {
  }

  lemma EightTimes(x: nat, q: nat)
    requires x == 8 * q
    ensures x % 8 == 0
  {
  }

  lemma SixteenTimes(x: nat, q: nat)
    requires x == 16 * q
    ensures x % 16 == 0
  {
  }

  /** Two different page boundaries are a page apart. */
  lemma PagesApart(a: nat, b: nat)
    requires a % 4096 == 0 && b % 4096 == 0 && a < b
    ensures b >= a + 4096
  {
    var p, q := a / 4096, b / 4096;
    assert a == 4096 * p && b == 4096 * q;
  }

  function Last(bs: seq<Block>): Block
    requires bs != []
  {
    bs[|bs| - 1]
  }

  function Front(bs: seq<Block>): seq<Block>
    requires bs != []
  {
    bs[..|bs| - 1]
  }

  // ----- measures of a list

  predicate Covers(bs: seq<Block>, x: nat) {
    bs != [] && (bs[0].Contains(x) || Covers(bs[1..], x))
  }

  /** The allocated blocks, in order. */
  function Allocated(bs: seq<Block>): seq<Block> {
    if bs == [] then []
    else (if bs[0].free then [] else [bs[0]]) + Allocated(bs[1..])
  }

  /** Bytes of payload in allocated blocks, and in free ones. */
  function UsedBytes(bs: seq<Block>): nat {
    if bs == [] then 0 else (if bs[0].free then 0 else bs[0].size) + UsedBytes(bs[1..])
  }

  function FreeBytes(bs: seq<Block>): nat {
    if bs == [] then 0 else (if bs[0].free then bs[0].size else 0) + FreeBytes(bs[1..])
  }

  // ----- order

  /** Neighbours touch, or leave a gap of whole pages. */
  predicate Apart(a: Block, b: Block) {
    a.End() == b.addr || (a.End() < b.addr && a.End() % 4096 == 0 && b.addr % 4096 == 0)
  }

  predicate Spaced(bs: seq<Block>) {
    |bs| < 2 || (Apart(bs[0], bs[1]) && Spaced(bs[1..]))
  }

  /** Addresses and sizes are multiples of 8 (not of 16). */
  predicate Granular(bs: seq<Block>) {
    bs == [] || (bs[0].addr % 8 == 0 && bs[0].size % 8 == 0 && Granular(bs[1..]))
  }

  // ----- coalescing

  /** The source's test: it compares with the end of the size rounded up. */
  predicate Mergeable(a: Block, b: Block) {
    a.free && b.free && a.Payload() + AlignUp(a.size) == b.addr
  }

  function Merge(a: Block, b: Block): Block {
    a.(size := a.size + HEADER + b.size)
  }

  function Coalesce(bs: seq<Block>): seq<Block>
    decreases |bs|
  {
    if |bs| < 2 then bs
    else if Mergeable(bs[0], bs[1]) then Coalesce([Merge(bs[0], bs[1])] + bs[2..])
    else [bs[0]] + Coalesce(bs[1..])
  }

  /** No two neighbours can be merged any more. */
  predicate Coalesced(bs: seq<Block>) {
    forall i :: 0 <= i < |bs| - 1 ==> !Mergeable(bs[i], bs[i + 1])
  }

  // ----- concatenation

  lemma {:induction false} ConcatCovers(a: seq<Block>, b: seq<Block>)
    ensures forall x :: Covers(a + b, x) <==> Covers(a, x) || Covers(b, x)
  {
    if a == [] {
      assert a + b == b;
    } else {
      assert (a + b)[1..] == a[1..] + b;
      ConcatCovers(a[1..], b);
    }
  }

  lemma {:induction false} ConcatAllocated(a: seq<Block>, b: seq<Block>)
    ensures Allocated(a + b) == Allocated(a) + Allocated(b)
  {
    if a == [] {
      assert a + b == b;
    } else {
      assert (a + b)[1..] == a[1..] + b;
      ConcatAllocated(a[1..], b);
    }
  }

  lemma {:induction false} ConcatBytes(a: seq<Block>, b: seq<Block>)
    ensures UsedBytes(a + b) == UsedBytes(a) + UsedBytes(b) && FreeBytes(a + b) == FreeBytes(a) + FreeBytes(b)
  {
    if a == [] {
      assert a + b == b;
    } else {
      assert (a + b)[1..] == a[1..] + b;
      ConcatBytes(a[1..], b);
    }
  }

  lemma ConcatMeasures(a: seq<Block>, b: seq<Block>)
    ensures forall x :: Covers(a + b, x) <==> Covers(a, x) || Covers(b, x)
    ensures Allocated(a + b) == Allocated(a) + Allocated(b)
    ensures UsedBytes(a + b) == UsedBytes(a) + UsedBytes(b)
    ensures FreeBytes(a + b) == FreeBytes(a) + FreeBytes(b)
  {
    hide *;
    ConcatCovers(a, b);
    ConcatAllocated(a, b);
    ConcatBytes(a, b);
  }

  lemma {:induction false} ConcatSpaced(a: seq<Block>, b: seq<Block>)
    ensures Spaced(a + b) <==>
            Spaced(a) && Spaced(b) && (a == [] || b == [] || Apart(a[|a| - 1], b[0]))
  {
    if a == [] {
      assert a + b == b;
    } else if b == [] {
      assert a + b == a;
    } else {
      assert (a + b)[1..] == a[1..] + b;
      ConcatSpaced(a[1..], b);
    }
  }

  lemma {:induction false} ConcatGranular(a: seq<Block>, b: seq<Block>)
    ensures Granular(a + b) <==> Granular(a) && Granular(b)
  {
    if a == [] {
      assert a + b == b;
    } else {
      assert (a + b)[1..] == a[1..] + b;
      ConcatGranular(a[1..], b);
    }
  }

  lemma {:induction false} GranularMember(bs: seq<Block>, i: nat)
    requires Granular(bs) && i < |bs|
    ensures bs[i].addr % 8 == 0 && bs[i].size % 8 == 0
  {
    if i > 0 {
      GranularMember(bs[1..], i - 1);
    }
  }

  lemma {:induction false} SpacedOrdered(bs: seq<Block>, i: nat, j: nat)
    requires Spaced(bs) && i < j < |bs|
    ensures bs[i].End() <= bs[j].addr
    decreases |bs|
  {
    if i > 0 {
      SpacedOrdered(bs[1..], i - 1, j - 1);
    } else if j > 1 {
      SpacedOrdered(bs[1..], 0, j - 1);
    }
  }

  lemma {:induction false} CoversMember(bs: seq<Block>, x: nat)
    ensures Covers(bs, x) <==> exists b <- bs :: b.Contains(x)
  {
    if bs != [] {
      CoversMember(bs[1..], x);
      assert bs == [bs[0]] + bs[1..];
    }
  }

  lemma {:induction false} AllocatedMember(bs: seq<Block>, b: Block)
    ensures b in Allocated(bs) <==> b in bs && !b.free
  {
    if bs != [] {
      AllocatedMember(bs[1..], b);
      assert bs == [bs[0]] + bs[1..];
    }
  }

  // ----- what coalescing keeps

  /** In a spaced list the rounded test merges only blocks that truly touch. */
  lemma MergeTouches(a: Block, b: Block)
    requires Apart(a, b)
    ensures Mergeable(a, b) <==> a.free && b.free && a.End() == b.addr && a.size % 16 == 0
  {
    hide AlignUp;
    AlignUpMeaning(a.size);
    if a.End() < b.addr {
      PagesApart(a.End(), b.addr);
    }
  }

  /** The address order, and the two ends of the list. */
  lemma {:induction false} CoalesceShape(bs: seq<Block>)
    requires Spaced(bs)
    ensures Spaced(Coalesce(bs))
    ensures bs == [] <==> Coalesce(bs) == []
    ensures bs != [] ==> Coalesce(bs)[0].addr == bs[0].addr && Coalesce(bs)[0].free == bs[0].free
                         && Coalesce(bs)[0].End() >= bs[0].End()
                         && Last(Coalesce(bs)).End() == Last(bs).End()
    decreases |bs|
  {
    if |bs| < 2 {
    } else if Mergeable(bs[0], bs[1]) {
      MergeTouches(bs[0], bs[1]);
      var merged := [Merge(bs[0], bs[1])] + bs[2..];
      assert bs[1..][1..] == bs[2..] == merged[1..];
      assert Last(merged).End() == Last(bs).End();
      CoalesceShape(merged);
    } else {
      CoalesceShape(bs[1..]);
      var rest := Coalesce(bs[1..]);
      assert ([bs[0]] + rest)[1..] == rest;
    }
  }

  /** The covered bytes, every allocated block, and the byte balance: each header
      that disappears becomes free payload. */
  lemma {:induction false} CoalesceKeeps(bs: seq<Block>)
    requires Spaced(bs)
    ensures forall x :: Covers(Coalesce(bs), x) <==> Covers(bs, x)
    ensures Allocated(Coalesce(bs)) == Allocated(bs)
    ensures UsedBytes(Coalesce(bs)) == UsedBytes(bs)
    ensures FreeBytes(Coalesce(bs)) + HEADER * |Coalesce(bs)| == FreeBytes(bs) + HEADER * |bs|
    decreases |bs|
  {
    if |bs| < 2 {
    } else if Mergeable(bs[0], bs[1]) {
      MergeTouches(bs[0], bs[1]);
      var merged := [Merge(bs[0], bs[1])] + bs[2..];
      assert bs[1..][1..] == bs[2..] == merged[1..];
      CoalesceKeeps(merged);
    } else {
      CoalesceKeeps(bs[1..]);
      var rest := Coalesce(bs[1..]);
      assert ([bs[0]] + rest)[1..] == rest;
    }
  }

  lemma MergeGranular(a: Block, b: Block)
    requires a.size % 8 == 0 && b.size % 8 == 0
    ensures Merge(a, b).size % 8 == 0 && Merge(a, b).addr == a.addr
  {
    assert a.size == 8 * (a.size / 8) && b.size == 8 * (b.size / 8);
    EightTimes(Merge(a, b).size, a.size / 8 + 3 + b.size / 8);
  }

  lemma {:induction false} CoalesceGranular(bs: seq<Block>)
    requires Granular(bs)
    ensures Granular(Coalesce(bs))
    decreases |bs|
  {
    hide Merge, Mergeable;
    if |bs| < 2 {
    } else if Mergeable(bs[0], bs[1]) {
      var merged := [Merge(bs[0], bs[1])] + bs[2..];
      assert bs[1..][1..] == bs[2..] == merged[1..];
      MergeGranular(bs[0], bs[1]);
      CoalesceGranular(merged);
    } else {
      CoalesceGranular(bs[1..]);
    }
  }

  /** One pass reaches a fixed point. */
  lemma {:induction false} CoalesceReachesFixpoint(bs: seq<Block>)
    requires Spaced(bs)
    ensures Coalesced(Coalesce(bs))
    decreases |bs|
  {
    if |bs| < 2 {
    } else if Mergeable(bs[0], bs[1]) {
      MergeTouches(bs[0], bs[1]);
      var merged := [Merge(bs[0], bs[1])] + bs[2..];
      assert bs[1..][1..] == bs[2..] == merged[1..];
      CoalesceReachesFixpoint(merged);
    } else {
      CoalesceReachesFixpoint(bs[1..]);
      CoalesceShape(bs[1..]);
      var rest := Coalesce(bs[1..]);
      var all := [bs[0]] + rest;
      assert !Mergeable(bs[0], rest[0]);
      forall i | 0 <= i < |all| - 1 ensures !Mergeable(all[i], all[i + 1]) {
        assert i > 0 ==> all[i] == rest[i - 1] && all[i + 1] == rest[i - 1 + 1];
      }
    }
  }

  lemma {:induction false} CoalesceFixpoint(bs: seq<Block>)
    requires Coalesced(bs)
    ensures Coalesce(bs) == bs
    decreases |bs|
  {
    if |bs| >= 2 {
      assert !Mergeable(bs[0], bs[0 + 1]);
      forall i | 0 <= i < |bs[1..]| - 1 ensures !Mergeable(bs[1..][i], bs[1..][i + 1]) {
        assert !Mergeable(bs[i + 1], bs[i + 1 + 1]);
      }
      CoalesceFixpoint(bs[1..]);
    }
  }

  /** What "no block can be merged any more" means byte for byte. */
  lemma CoalescedMeaning(bs: seq<Block>, i: nat)
    requires Spaced(bs) && Coalesced(bs) && i + 1 < |bs|
    requires bs[i].free && bs[i].size % 16 == 0 && bs[i].End() == bs[i + 1].addr
    ensures !bs[i + 1].free
  {
    assert !Mergeable(bs[i], bs[i + 1]);
  }

  /** A pass over a + b is a pass over a, then over b with a's last block in front. */
  lemma {:induction false} CoalesceConcat(a: seq<Block>, b: seq<Block>)
    requires a != []
    ensures Coalesce(a) != []
    ensures Coalesce(a + b) == Front(Coalesce(a)) + Coalesce([Last(Coalesce(a))] + b)
    decreases |a|
  {
    if |a| == 1 {
      assert a == [a[0]];
    } else if Mergeable(a[0], a[1]) {
      var merged := [Merge(a[0], a[1])] + a[2..];
      assert [Merge(a[0], a[1])] + (a + b)[2..] == merged + b;
      CoalesceConcat(merged, b);
    } else {
      assert (a + b)[1..] == a[1..] + b;
      CoalesceConcat(a[1..], b);
      var q := Coalesce(a[1..]);
      assert Coalesce(a) == [a[0]] + q;
      assert Front([a[0]] + q) == [a[0]] + Front(q);
    }
  }
}
