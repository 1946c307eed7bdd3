/** Releasing a header that an expansion's coalescing took out of the list: what its
    bytes are by then, and exactly when writing them damages the list. */
module HeapStale {
  import opened Basics
  import opened Blocks
  import opened HeapModel
  import opened HeapInvariant

  // A header is 8 bytes of size, 8 bytes of link and the flag byte, least significant
  // byte first.
  const LINK: nat := 8
  const FLAG: nat := 16

  /** What the flag byte and the size of an unlisted header hold where no header of the
      list has come to lie over them; memory that the heap knows nothing about. */
  datatype Found = Found(flag: u8, size: u64)

  /** The low byte of the link in block i: null after the last. */
  function LinkByte(bs: seq<Block>, i: nat): u8
    requires i < |bs|
  {
    if i + 1 < |bs| then bs[i + 1].addr % 256 else 0
  }

  /** Byte x is one that list operations read in the header of b. */
  predicate FieldByte(b: Block, x: nat) {
    b.addr <= x <= b.addr + FLAG
  }

  /** The flag byte of the unlisted header: the low byte of the size of a listed header
      that starts there, or of the link of one that starts 8 bytes before. */
  function FlagByte(bs: seq<Block>, header: nat, found: Found): u8 {
    var i, j := IndexOf(bs, header + 16), IndexOf(bs, header + 8);
    if i < |bs| then bs[i].size % 256
    else if j < |bs| then LinkByte(bs, j)
    else found.flag
  }

  /** `kfree` on an unlisted header. None when its write made a link of the list lead
      to no header. */
  function StaleKfree(m: Memory, header: nat, found: Found): Option<Memory> {
    var bs := m.blocks;
    var i, j := IndexOf(bs, header + 16), IndexOf(bs, header + 8);
    if FlagByte(bs, header, found) != 0 then Some(m)
    else if i < |bs| then
      Some(m.(blocks := Coalesce(bs[i := bs[i].(size := bs[i].size + 1)]), used := m.used - found.size))
    else if j < |bs| then None
    else Some(m.(blocks := Coalesce(bs), used := m.used - found.size))
  }

  /** A listed header lies over the flag byte, with a zero there. */
  predicate Damages(bs: seq<Block>, header: nat) {
    exists i {:trigger bs[i]} :: 0 <= i < |bs| &&
      ((bs[i].addr == header + 16 && bs[i].size % 256 == 0) || (bs[i].addr == header + 8 && LinkByte(bs, i) == 0))
  }

  /** Two blocks that share a byte are one. */
  lemma SharedByte(bs: seq<Block>, i: nat, j: nat, x: nat)
    requires Spaced(bs) && i < |bs| && j < |bs| && bs[i].Contains(x) && bs[j].Contains(x)
    ensures i == j
  {
    if i < j {
      SpacedOrdered(bs, i, j);
    } else if j < i {
      SpacedOrdered(bs, j, i);
    }
  }

  lemma EightApart(a: nat, h: nat)
    requires a % 8 == 0 && h % 8 == 0 && h <= a <= h + 16
    ensures a == h || a == h + 8 || a == h + 16
  {
  }

  /** Only the two headers that `FlagByte` looks for can lie over the flag byte, and
      never both. */
  lemma FlagOverlaps(bs: seq<Block>, header: nat, i: nat)
    requires Spaced(bs) && Granular(bs) && header % 8 == 0 && IndexOf(bs, header) == |bs| && i < |bs|
    ensures FieldByte(bs[i], header + FLAG) <==> bs[i].addr == header + 16 || bs[i].addr == header + LINK
    ensures FieldByte(bs[i], header + FLAG) ==>
              forall j :: 0 <= j < |bs| && FieldByte(bs[j], header + FLAG) ==> j == i
  {
    hide Spaced, Granular;
    if FieldByte(bs[i], header + FLAG) {
      GranularMember(bs, i);
      EightApart(bs[i].addr, header);
      forall j | 0 <= j < |bs| && FieldByte(bs[j], header + FLAG) ensures j == i {
        SharedByte(bs, i, j, header + FLAG);
      }
    }
  }

  lemma CoalesceStructured(m: Memory, used: int)
    requires Structured(m)
    ensures Structured(m.(blocks := Coalesce(m.blocks), used := used))
  {
    CoalesceShape(m.blocks);
    CoalesceTiles(m.blocks, m.owned);
    CoalesceBalance(m.blocks);
    CoalesceGranular(m.blocks);
  }

  /** Payload and headers of any list, in order or not. */
  function Weight(bs: seq<Block>): nat {
    UsedBytes(bs) + FreeBytes(bs) + HEADER * |bs|
  }

  /** Coalescing keeps it even in a list that is out of order. */
  lemma {:induction false} CoalesceWeight(bs: seq<Block>)
    ensures Weight(Coalesce(bs)) == Weight(bs)
    decreases |bs|
  {
    if |bs| < 2 {
    } else if Mergeable(bs[0], bs[1]) {
      var merged := [Merge(bs[0], bs[1])] + bs[2..];
      assert bs[1..][1..] == bs[2..] == merged[1..];
      assert UsedBytes(bs[1..]) == UsedBytes(bs[2..]) && FreeBytes(bs[1..]) == bs[1].size + FreeBytes(bs[2..]);
      CoalesceWeight(merged);
    } else {
      CoalesceWeight(bs[1..]);
      var rest := Coalesce(bs[1..]);
      assert ([bs[0]] + rest)[1..] == rest;
    }
  }

  lemma GrownWeight(bs: seq<Block>, i: nat)
    requires i < |bs|
    ensures Weight(bs[i := bs[i].(size := bs[i].size + 1)]) == Weight(bs) + 1
  {
    var pre, b, post := bs[..i], bs[i], bs[i + 1..];
    var grown := b.(size := b.size + 1);
    SplitAround(bs, i);
    assert bs[i := grown] == pre + [grown] + post;
    SurroundedMeasures(pre, [b], post);
    SurroundedMeasures(pre, [grown], post);
    assert [b][1..] == [] && [grown][1..] == [];
  }

  /** Releasing an unlisted header leaves an ordered list that tiles the owned frames
      exactly when no listed header has a zero over its flag byte. */
  lemma StaleKfreeMeaning(m: Memory, header: nat, found: Found)
    requires Structured(m)
    ensures var after := StaleKfree(m, header, found);
            after.Some? && Structured(after.value) <==> !Damages(m.blocks, header)
  {
    var bs := m.blocks;
    var i, j := IndexOf(bs, header + 16), IndexOf(bs, header + 8);
    DamagesAt(bs, header);
    if FlagByte(bs, header, found) == 0 {
      if i < |bs| {
        var grown := bs[i := bs[i].(size := bs[i].size + 1)];
        GrownWeight(bs, i);
        CoalesceWeight(grown);
      } else if j == |bs| {
        CoalesceStructured(m, m.used - found.size);
      }
    }
  }

  lemma DamagesAt(bs: seq<Block>, header: nat)
    requires Spaced(bs)
    ensures var i, j := IndexOf(bs, header + 16), IndexOf(bs, header + 8);
            && (i == |bs| || j == |bs|)
            && (Damages(bs, header) <==>
                 (i < |bs| && bs[i].size % 256 == 0) || (j < |bs| && LinkByte(bs, j) == 0))
  {
    var i, j := IndexOf(bs, header + 16), IndexOf(bs, header + 8);
    if i < |bs| && j < |bs| {
      if i < j {
        SpacedOrdered(bs, i, j);
      } else {
        SpacedOrdered(bs, j, i);
      }
    }
    if Damages(bs, header) {
      var k :| 0 <= k < |bs| && ((bs[k].addr == header + 16 && bs[k].size % 256 == 0)
                                || (bs[k].addr == header + 8 && LinkByte(bs, k) == 0));
      IndexOfIs(bs, k);
    }
  }
}
