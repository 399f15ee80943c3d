/**
 The heap allocator over byte memory. An array index is a 32-bit address and address 0 is null.
 The ghost field `blocks` is the block list that the linked headers in memory stand for.
 */
module Heap {
  import opened Machine
  import opened ByteMemory
  import opened HeapBlocks
  import opened HeapImage
  import opened HeapContents

  lemma HalveRight(l: nat, r: nat)
    ensures l * r == (2 * l) * (r / 2) + (if r % 2 != 0 then l else 0)
    ensures (2 * l) * (r / 2) >= 0
  {
    assert r == 2 * (r / 2) + r % 2;
    assert l * r == l * (2 * (r / 2)) + l * (r % 2);
  }

  lemma FactorBelow(l: nat, r: nat)
    requires r > 0
    ensures l <= l * r
  {
    assert l * r == l * (r - 1) + l;
  }

  class Heap {
    const mem: Memory
    var first: u32
    var total: u32
    var active: u32
    var ready: bool
    ghost var blocks: seq<Block>
    ghost var end: nat

    ghost predicate Shape()
      reads this, mem, mem.bytes
    {
      && end <= mem.bytes.Length <= SIZE_GUARD
      && mem.Valid()
      && Image(mem.words, blocks, first, end)
    }

    ghost predicate Valid()
      reads this, mem, mem.bytes
    {
      && mem.bytes.Length <= SIZE_GUARD
      && mem.Valid()
      && (if ready then Shape() && total + HEADER == end - first && active == LiveCount(blocks)
          else blocks == [])
    }

    constructor (mem: Memory)
      requires mem.Valid() && mem.bytes.Length <= SIZE_GUARD
      ensures Valid() && !ready && this.mem == mem
    {
      this.mem := mem;
      first, total, active, ready := 0, 0, 0, false;
      blocks, end := [], 0;
    }

    // -------------------------------------------------------------- list surgery

    /** An aligned header position inside memory. */
    ghost predicate Slot(a: nat)
      reads mem
    {
      a % 16 == 0 && a + HEADER <= mem.bytes.Length
    }

    /** The stores of a split: the new free header, the successor's back link, the block's size and link. */
    method WriteSplit(block: u32, split: u32, next: u32, wanted: u32, rest: u32)
      requires mem.Valid() && mem.bytes.Length <= SIZE_GUARD
      requires Slot(block) && Slot(split) && Slot(next)
      modifies mem, mem.bytes
      ensures mem.Valid() && mem.words == SplitImage(old(mem.words), block, split, next, wanted, rest)
      ensures forall k :: 0 <= k < mem.bytes.Length && mem.bytes[k] != old(mem.bytes[k]) ==>
                block <= k < block + HEADER || split <= k < split + HEADER || (next != 0 && next <= k < next + HEADER)
    {
      HeaderFieldsAligned(block);
      HeaderFieldsAligned(split);
      HeaderFieldsAligned(next);
      mem.StoreWord(split, rest);
      mem.StoreWord(split + 4, MAGIC_FREE);
      mem.StoreWord(split + 8, block);
      mem.StoreWord(split + 12, next);
      if next != 0 {
        mem.StoreWord(next + 8, split);
      }
      mem.StoreWord(block, wanted);
      mem.StoreWord(block + 12, split);
    }

    /** The stores of a merge: the block's size and link, and the new successor's back link. */
    method WriteMerge(block: u32, size: u32, next: u32)
      requires mem.Valid() && mem.bytes.Length <= SIZE_GUARD
      requires Slot(block) && Slot(next)
      modifies mem, mem.bytes
      ensures mem.Valid() && mem.words == MergeImage(old(mem.words), block, size, next)
      ensures forall k :: 0 <= k < mem.bytes.Length && mem.bytes[k] != old(mem.bytes[k]) ==>
                block <= k < block + HEADER || (next != 0 && next <= k < next + HEADER)
    {
      HeaderFieldsAligned(block);
      HeaderFieldsAligned(next);
      mem.StoreWord(block, size);
      mem.StoreWord(block + 12, next);
      if next != 0 {
        mem.StoreWord(next + 8, block);
      }
    }

    /** Where block `i` and its links lie. */
    lemma SlotOf(i: nat)
      requires Shape() && i < |blocks|
      ensures Slot(blocks[i].addr) && blocks[i].End() <= mem.bytes.Length
      ensures Slot(Next(blocks, i)) && Slot(Prev(blocks, i))
      ensures Next(blocks, i) == 0 <==> i + 1 == |blocks|
      ensures Prev(blocks, i) == 0 <==> i == 0
    {
      AddressesAligned(blocks, first, end, i);
      Within(blocks, first, end, i);
      if i + 1 < |blocks| {
        AddressesAligned(blocks, first, end, i + 1);
        Within(blocks, first, end, i + 1);
      }
      if i > 0 {
        AddressesAligned(blocks, first, end, i - 1);
        Within(blocks, first, end, i - 1);
      }
    }

    method SizeOf(block: u32, ghost i: nat) returns (size: u32)
      requires Shape() && i < |blocks| && blocks[i].addr == block
      ensures size == blocks[i].size
    {
      SlotOf(i);
      assert HeaderAt(mem.words, blocks, i);
      size := mem.LoadWord(block);
    }

    method IsFree(block: u32, ghost i: nat) returns (free: bool)
      requires Shape() && i < |blocks| && blocks[i].addr == block
      ensures free == blocks[i].free
    {
      SlotOf(i);
      HeaderFieldsAligned(block);
      assert HeaderAt(mem.words, blocks, i);
      var magic := mem.LoadWord(block + 4);
      free := magic == MAGIC_FREE;
    }

    method PreviousOf(block: u32, ghost i: nat) returns (previous: u32)
      requires Shape() && i < |blocks| && blocks[i].addr == block
      ensures previous == Prev(blocks, i) && (previous == 0 <==> i == 0)
    {
      SlotOf(i);
      HeaderFieldsAligned(block);
      assert HeaderAt(mem.words, blocks, i);
      previous := mem.LoadWord(block + 8);
    }

    method NextOf(block: u32, ghost i: nat) returns (next: u32)
      requires Shape() && i < |blocks| && blocks[i].addr == block
      ensures next == Next(blocks, i) && (next == 0 <==> i + 1 == |blocks|)
    {
      SlotOf(i);
      HeaderFieldsAligned(block);
      assert HeaderAt(mem.words, blocks, i);
      next := mem.LoadWord(block + 12);
    }

    method WriteMagic(block: u32, free: bool, ghost i: nat)
      requires Shape() && i < |blocks| && blocks[i].addr == block
      modifies mem, mem.bytes
      ensures mem.Valid() && Image(mem.words, SetFree(blocks, i, free), first, end)
      ensures forall k :: 0 <= k < mem.bytes.Length && !(block <= k < block + HEADER) ==>
                mem.bytes[k] == old(mem.bytes[k])
    {
      SlotOf(i);
      HeaderFieldsAligned(block);
      SetMagicEncodes(mem.words, blocks, first, end, i, free);
      mem.StoreWord(block + 4, Magic(free));
    }

    method SetMagic(block: u32, free: bool, ghost i: nat, ghost except: nat)
      requires Shape() && i < |blocks| && blocks[i].addr == block
      requires blocks[i].free || blocks[i].Payload() == except
      modifies mem, mem.bytes, `blocks
      ensures Shape() && blocks == SetFree(old(blocks), i, free)
      ensures LiveKept(old(mem.bytes[..]), mem.bytes[..], old(blocks), blocks, except, first, end)
      ensures i < |blocks| && blocks[i].addr == block
      ensures SameBytes(old(mem.bytes[..]), mem.bytes[..], block + HEADER, Min(old(blocks)[i].size, blocks[i].size))
    {
      ghost var bs, m := blocks, mem.bytes[..];
      WriteMagic(block, free, i);
      blocks := SetFree(blocks, i, free);
      SetFreeKeeps(bs, i, free);
      HeaderStoresSpare(m, mem.bytes[..], bs, blocks, first, end, except);
      HeaderStoresSpareStart(m, mem.bytes[..], bs, blocks, first, end, i);
    }

    method SplitBlock(block: u32, wanted: u32, ghost i: nat, ghost except: nat)
      requires Shape() && i < |blocks| && blocks[i].addr == block
      requires blocks[i].free || blocks[i].Payload() == except
      requires wanted % 16 == 0
      modifies mem, mem.bytes, `blocks
      ensures Shape() && blocks == SplitAt(old(blocks), i, wanted)
      ensures LiveKept(old(mem.bytes[..]), mem.bytes[..], old(blocks), blocks, except, first, end)
      ensures i < |blocks| && blocks[i].addr == block
      ensures SameBytes(old(mem.bytes[..]), mem.bytes[..], block + HEADER, Min(old(blocks)[i].size, blocks[i].size))
    {
      var size := SizeOf(block, i);
      if size < wanted || size - wanted < HEADER + ALIGNMENT {
        LiveKeptReflexive(mem.bytes[..], blocks, except, first, end);
        HeaderStoresSpareStart(mem.bytes[..], mem.bytes[..], blocks, blocks, first, end, i);
        return;
      }
      var next := NextOf(block, i);
      CutOff(block, size, next, wanted, i, except);
    }

    /** The block gives up its payload beyond `wanted` to a new free block. */
    method CutOff(block: u32, size: u32, next: u32, wanted: u32, ghost i: nat, ghost except: nat)
      requires Shape() && i < |blocks| && (blocks[i].free || blocks[i].Payload() == except)
      requires block == blocks[i].addr && size == blocks[i].size && next == Next(blocks, i)
      requires wanted % 16 == 0 && wanted + HEADER + ALIGNMENT <= size
      modifies mem, mem.bytes, `blocks
      ensures Shape() && blocks == SplitAt(old(blocks), i, wanted)
      ensures LiveKept(old(mem.bytes[..]), mem.bytes[..], old(blocks), blocks, except, first, end)
      ensures SameBytes(old(mem.bytes[..]), mem.bytes[..], block + HEADER, wanted)
    {
      ghost var bs, w, m := blocks, mem.words, mem.bytes[..];
      SlotOf(i);
      var split: u32, rest: u32 := block + HEADER + wanted, size - wanted - HEADER;
      SplitEncodes(w, bs, first, end, i, block, split, next, wanted, rest);
      SumAligned(block, wanted);
      WriteSplit(block, split, next, wanted, rest);
      SplitSpares(m, mem.bytes[..], bs, first, end, i, wanted, except);
      blocks := SplitAt(bs, i, wanted);
    }

    method MergeWithNext(block: u32, ghost i: nat, ghost except: nat)
      requires Shape() && i < |blocks| && blocks[i].addr == block
      requires blocks[i].free || blocks[i].Payload() == except
      modifies mem, mem.bytes, `blocks
      ensures Shape() && blocks == MergeAt(old(blocks), i)
      ensures LiveKept(old(mem.bytes[..]), mem.bytes[..], old(blocks), blocks, except, first, end)
      ensures i < |blocks| && blocks[i].addr == block
      ensures SameBytes(old(mem.bytes[..]), mem.bytes[..], block + HEADER, Min(old(blocks)[i].size, blocks[i].size))
    {
      var next := NextOf(block, i);
      var nextFree := false;
      if next != 0 {
        nextFree := IsFree(next, i + 1);
      }
      if !nextFree {
        LiveKeptReflexive(mem.bytes[..], blocks, except, first, end);
        HeaderStoresSpareStart(mem.bytes[..], mem.bytes[..], blocks, blocks, first, end, i);
        return;
      }
      var size := SizeOf(block, i);
      var nextSize := SizeOf(next, i + 1);
      var nextNext := NextOf(next, i + 1);
      Absorb(block, size, nextSize, nextNext, i, except);
    }

    /** The block takes over its free successor. */
    method Absorb(block: u32, size: u32, nextSize: u32, nextNext: u32, ghost i: nat, ghost except: nat)
      requires Shape() && i < |blocks| && CanMerge(blocks, i) && (blocks[i].free || blocks[i].Payload() == except)
      requires block == blocks[i].addr && size == blocks[i].size
      requires nextSize == blocks[i+1].size && nextNext == Next(blocks, i + 1)
      modifies mem, mem.bytes, `blocks
      ensures Shape() && blocks == MergeAt(old(blocks), i)
      ensures LiveKept(old(mem.bytes[..]), mem.bytes[..], old(blocks), blocks, except, first, end)
      ensures SameBytes(old(mem.bytes[..]), mem.bytes[..], block + HEADER, size)
    {
      ghost var bs, w, m := blocks, mem.words, mem.bytes[..];
      SlotOf(i);
      SlotOf(i + 1);
      Within(bs, first, end, i + 1);
      assert Adjacent(bs, i + 1);
      var merged: u32 := size + (HEADER + nextSize);
      MergeEncodes(w, bs, first, end, i, block, merged, nextNext);
      WriteMerge(block, merged, nextNext);
      MergeSpares(m, mem.bytes[..], bs, first, end, i, except);
      blocks := MergeAt(bs, i);
    }

    /** The stores of the first header. */
    method WriteFirst(start: u32, size: u32)
      requires mem.Valid() && mem.bytes.Length <= SIZE_GUARD && Slot(start)
      modifies mem, mem.bytes
      ensures mem.Valid() && mem.words == InitImage(old(mem.words), start, size)
    {
      HeaderFieldsAligned(start);
      mem.StoreWord(start, size);
      mem.StoreWord(start + 4, MAGIC_FREE);
      mem.StoreWord(start + 8, 0);
      mem.StoreWord(start + 12, 0);
    }

    /** The heap becomes one free block over [start, limit). */
    method Start(start: u32, limit: u32)
      requires mem.Valid() && start % 16 == 0 && limit % 16 == 0
      requires 0 < start && start + HEADER + ALIGNMENT <= limit <= mem.bytes.Length <= SIZE_GUARD
      modifies this, mem, mem.bytes
      ensures Valid() && ready && first == start && end == limit
      ensures blocks == [Block(start, limit - start - HEADER, true)]
    {
      InitEncodes(mem.words, start, limit);
      WriteFirst(start, limit - start - HEADER);
      first := start;
      total := limit - start - HEADER;
      active := 0;
      ready := true;
      end := limit;
      blocks := [Block(start, limit - start - HEADER, true)];
    }

    /** Sets up one free block over [memory, memory + size) aligned inward: -1 for no memory, -2 for too little. */
    method Init(memory: u32, size: u32) returns (result: int)
      requires mem.Valid() && memory + size <= mem.bytes.Length <= SIZE_GUARD
      modifies this, mem, mem.bytes
      ensures var lo, hi := AlignUp(memory), (memory + size) / 16 * 16;
              result == (if memory == 0 || size == 0 then -1 else if hi < lo + HEADER + ALIGNMENT then -2 else 0)
              && (result == 0 ==>
                    && Valid() && ready && first == lo && end == hi
                    && blocks == [Block(lo, hi - lo - HEADER, true)])
              && (result != 0 ==> unchanged(this, mem, mem.bytes))
    {
      if memory == 0 || size == 0 {
        return -1;
      }
      var start := AlignUp(memory);
      var limit := (memory + size) / 16 * 16;
      if limit <= start || limit - start < HEADER + ALIGNMENT {
        return -2;
      }
      Start(start, limit);
      return 0;
    }

    /** Turns a fitting free block into a live one. */
    method Take(block: u32, wanted: u32, ghost i: nat)
      requires Shape() && i < |blocks| && blocks[i].addr == block
      requires Fits(blocks[i], wanted) && wanted % 16 == 0
      modifies mem, mem.bytes, `blocks
      ensures Shape() && blocks == Carve(old(blocks), i, wanted)
      ensures LiveKept(old(mem.bytes[..]), mem.bytes[..], old(blocks), blocks, 0, first, end)
    {
      ghost var bs, m := blocks, mem.bytes[..];
      SplitBlock(block, wanted, i, 0);
      ghost var bs1, m1 := blocks, mem.bytes[..];
      SetMagic(block, false, i, 0);
      LiveKeptTransitive(m, m1, mem.bytes[..], bs, bs1, blocks, 0, 0, first, end);
    }

    lemma MallocFound(bs: seq<Block>, lo: nat, hi: nat, size: u32, i: nat)
      requires Tiles(bs, lo, hi) && hi <= SIZE_GUARD && 0 < size <= SIZE_GUARD
      requires i < |bs| && Fits(bs[i], AlignUp(size)) && i == FirstFit(bs, AlignUp(size), 0)
      ensures MallocOutcome(bs, size) == Outcome(Carve(bs, i, AlignUp(size)), bs[i].Payload())
      ensures LiveCount(Carve(bs, i, AlignUp(size))) == LiveCount(bs) + 1 < TWO32
      ensures bs[i].Payload() < TWO32
    {
      CarveSteps(bs, i, AlignUp(size));
      LiveCountFits(bs, lo, hi);
      Within(bs, lo, hi, i);
    }

    method Malloc(size: u32) returns (ptr: u32)
      requires Valid()
      modifies mem, mem.bytes, `blocks, `active
      ensures Valid() && Outcome(blocks, ptr) == MallocOutcome(old(blocks), size)
      ensures LiveKept(old(mem.bytes[..]), mem.bytes[..], old(blocks), blocks, 0, first, end)
    {
      ghost var bs, m := blocks, mem.bytes[..];
      LiveKeptReflexive(m, bs, 0, first, end);
      if !ready || size == 0 {
        return 0;
      }
      if size > 0xFFFF_FFFF - (ALIGNMENT - 1) {
        return 0;
      }
      ghost var i;
      var block;
      block, i := FindFit(AlignUp(size));
      if block == 0 {
        return 0;
      }
      ptr := Allocate(block, size, i);
    }

    /** The first fit becomes the allocation. */
    method Allocate(block: u32, size: u32, ghost i: nat) returns (ptr: u32)
      requires Valid() && ready && 0 < size <= SIZE_GUARD
      requires i == FirstFit(blocks, AlignUp(size), 0) < |blocks|
      requires blocks[i].addr == block && Fits(blocks[i], AlignUp(size))
      modifies mem, mem.bytes, `blocks, `active
      ensures Valid() && Outcome(blocks, ptr) == MallocOutcome(old(blocks), size)
      ensures LiveKept(old(mem.bytes[..]), mem.bytes[..], old(blocks), blocks, 0, first, end)
    {
      MallocFound(blocks, first, end, size, i);
      Take(block, AlignUp(size), i);
      active := active + 1;
      return block + HEADER;
    }

    /** The first free block of at least this size, or 0. */
    method FindFit(wanted: u32) returns (block: u32, ghost i: nat)
      requires Valid() && ready
      ensures i == FirstFit(blocks, wanted, 0) <= |blocks|
      ensures if block == 0 then i == |blocks| else i < |blocks| && block == blocks[i].addr && Fits(blocks[i], wanted)
    {
      block, i := first, 0;
      while block != 0
        invariant 0 <= i <= |blocks| && (block == 0 <==> i == |blocks|)
        invariant i < |blocks| ==> block == blocks[i].addr
        invariant forall j :: 0 <= j < i ==> !Fits(blocks[j], wanted)
        decreases |blocks| - i
      {
        var free := IsFree(block, i);
        var room := SizeOf(block, i);
        if free && wanted <= room {
          break;
        }
        block := NextOf(block, i);
        i := i + 1;
      }
      FirstFitFound(blocks, wanted, 0, i);
    }

    /** Pointers a client may pass back: null, anything misaligned, or the payload of a listed block. */
    ghost predicate Known(ptr: nat)
      reads this
    {
      ptr == 0 || ptr % 16 != 0 || (ready ==> IndexOf(blocks, ptr) < |blocks|)
    }

    lemma UnknownPointer(ptr: nat)
      requires Valid() && (ptr == 0 || ptr % 16 != 0 || !ready)
      ensures IndexOf(blocks, ptr) == |blocks|
    {
      var i := IndexOf(blocks, ptr);
      if i < |blocks| {
        AddressesAligned(blocks, first, end, i);
      }
    }

    /** The merging half of a release. */
    method JoinNeighbours(block: u32, ghost i: nat, ghost except: nat)
      requires Shape() && i < |blocks| && blocks[i].addr == block && blocks[i].free
      modifies mem, mem.bytes, `blocks
      ensures Shape() && blocks == JoinAt(old(blocks), i)
      ensures LiveKept(old(mem.bytes[..]), mem.bytes[..], old(blocks), blocks, except, first, end)
    {
      ghost var bs, m := blocks, mem.bytes[..];
      MergeWithNext(block, i, except);
      ghost var bs1, m1 := blocks, mem.bytes[..];
      var previous := PreviousOf(block, i);
      if previous != 0 {
        var previousFree := IsFree(previous, i - 1);
        if previousFree {
          MergeWithNext(previous, i - 1, except);
          LiveKeptTransitive(m, m1, mem.bytes[..], bs, bs1, blocks, except, except, first, end);
        }
      }
    }

    /** A live block becomes free and joins its neighbours. */
    method Release(block: u32, ghost i: nat)
      requires Shape() && i < |blocks| && blocks[i].addr == block
      modifies mem, mem.bytes, `blocks
      ensures Shape() && blocks == FreeAt(old(blocks), i)
      ensures LiveKept(old(mem.bytes[..]), mem.bytes[..], old(blocks), blocks, block + HEADER, first, end)
    {
      ghost var bs, m, p := blocks, mem.bytes[..], block + HEADER;
      SetMagic(block, true, i, p);
      ghost var bs1, m1 := blocks, mem.bytes[..];
      JoinNeighbours(block, i, p);
      LiveKeptTransitive(m, m1, mem.bytes[..], bs, bs1, blocks, p, p, first, end);
    }

    method Free(ptr: u32)
      requires Valid() && Known(ptr)
      modifies mem, mem.bytes, `blocks, `active
      ensures Valid() && blocks == FreeOutcome(old(blocks), ptr)
      ensures LiveKept(old(mem.bytes[..]), mem.bytes[..], old(blocks), blocks, ptr, first, end)
    {
      ghost var bs := blocks;
      LiveKeptReflexive(mem.bytes[..], bs, ptr, first, end);
      if !ready || ptr == 0 || ptr % 16 != 0 {
        UnknownPointer(ptr);
        return;
      }
      var block: u32 := ptr - HEADER;
      ghost var i := IndexOf(bs, ptr);
      var wasFree := IsFree(block, i);
      if wasFree {
        return;
      }
      FreeCount(bs, i);
      Release(block, i);
      if active != 0 {
        active := active - 1;
      }
    }

    /** One client or allocator byte store inside the payload of `b`. */
    method Poke(a: u32, v: byte, ghost b: Block)
      requires Shape() && b in blocks && b.Payload() <= a < b.End() <= mem.bytes.Length
      modifies mem, mem.bytes
      ensures Shape() && mem.bytes[..] == old(mem.bytes[..])[a := v]
    {
      ghost var w := mem.words;
      mem.StoreByte(a, v);
      PayloadStoreEncodes(w, mem.words, blocks, first, end, b, a);
    }

    /** A client's stores inside a payload, whatever they are, disturb neither the list nor another block. */
    ghost method ClientWrote(before: seq<byte>, b: Block)
      requires ready && total + HEADER == end - first && active == LiveCount(blocks)
      requires end <= mem.bytes.Length == |before| <= SIZE_GUARD
      requires mem.words == Words(before) && Image(mem.words, blocks, first, end) && b in blocks
      requires forall k :: 0 <= k < mem.bytes.Length && !(b.Payload() <= k < b.End()) ==> mem.bytes[k] == before[k]
      modifies mem`words
      ensures Valid() && LiveKept(before, mem.bytes[..], blocks, blocks, b.Payload(), first, end)
    {
      ghost var w := mem.words;
      mem.Refresh(before, b.Payload(), b.End());
      PayloadStoresEncode(w, mem.words, blocks, first, end, b);
      PayloadStoresSpare(before, mem.bytes[..], blocks, first, end, b);
    }

    method Zero(p: u32, n: u32, ghost b: Block)
      requires Shape() && b in blocks && p == b.Payload() && n <= b.size && b.End() <= end
      modifies mem, mem.bytes
      ensures Shape() && forall k :: p <= k < p + n ==> mem.bytes[k] == 0
      ensures LiveKept(old(mem.bytes[..]), mem.bytes[..], blocks, blocks, p, first, end)
    {
      ghost var m := mem.bytes[..];
      var i: u32 := 0;
      while i < n
        invariant i <= n && Shape()
        invariant forall k :: 0 <= k < mem.bytes.Length && !(p <= k < p + n) ==> mem.bytes[k] == m[k]
        invariant forall k :: p <= k < p + i ==> mem.bytes[k] == 0
      {
        Poke(p + i, 0, b);
        i := i + 1;
      }
      PayloadStoresSpare(m, mem.bytes[..], blocks, first, end, b);
    }

    method CopyLoop(p: u32, source: u32, n: u32, ghost b: Block)
      requires Shape() && b in blocks && p == b.Payload() && n <= b.size && b.End() <= end
      requires source + n <= mem.bytes.Length && (source + n <= b.addr || b.End() <= source)
      modifies mem, mem.bytes
      ensures Shape()
      ensures forall k :: 0 <= k < mem.bytes.Length && !(p <= k < p + n) ==> mem.bytes[k] == old(mem.bytes[k])
      ensures forall k :: p <= k < p + n ==> mem.bytes[k] == old(mem.bytes[source + (k - p)])
    {
      var i: u32 := 0;
      while i < n
        invariant i <= n && Shape()
        invariant forall k :: 0 <= k < mem.bytes.Length && !(p <= k < p + i) ==> mem.bytes[k] == old(mem.bytes[k])
        invariant forall k :: p <= k < p + i ==> mem.bytes[k] == old(mem.bytes[source + (k - p)])
      {
        Poke(p + i, mem.bytes[source + i], b);
        i := i + 1;
      }
    }

    method Copy(p: u32, source: u32, n: u32, ghost b: Block)
      requires Shape() && b in blocks && p == b.Payload() && n <= b.size && b.End() <= end
      requires source + n <= mem.bytes.Length && (source + n <= b.addr || b.End() <= source)
      modifies mem, mem.bytes
      ensures Shape() && Copied(old(mem.bytes[..]), mem.bytes[..], source, p, n)
      ensures LiveKept(old(mem.bytes[..]), mem.bytes[..], blocks, blocks, p, first, end)
    {
      ghost var m := mem.bytes[..];
      CopyLoop(p, source, n, b);
      CopiedElementwise(m, mem.bytes[..], source, p, n);
      PayloadStoresSpare(m, mem.bytes[..], blocks, first, end, b);
    }

    /** Shift-and-add multiplication; fails exactly when the product does not fit 32 bits. */
    static method CheckedMultiply(left: u32, right: u32) returns (ok: bool, product: u32)
      ensures ok <==> left * right < TWO32
      ensures ok ==> product == left * right
    {
      var l: u32, r: u32 := left, right;
      product := 0;
      while r != 0
        invariant product + l * r == left * right
      {
        HalveRight(l, r);
        ghost var rest := (2 * l) * (r / 2);
        if r % 2 != 0 {
          if product > 0xFFFF_FFFF - l {
            return false, 0;
          }
          product := product + l;
        }
        r := r / 2;
        assert product + rest == left * right;
        if r != 0 {
          if l > 0x7FFF_FFFF {
            FactorBelow(2 * l, r);
            return false, 0;
          }
          l := 2 * l;
        } else {
          assert rest == 0 && l * r == 0;
        }
      }
      return true, product;
    }

    method Calloc(count: u32, size: u32) returns (ptr: u32)
      requires Valid()
      modifies mem, mem.bytes, `blocks, `active
      ensures Valid() && Outcome(blocks, ptr) == CallocOutcome(old(blocks), count, size)
      ensures LiveKept(old(mem.bytes[..]), mem.bytes[..], old(blocks), blocks, 0, first, end)
      ensures ptr != 0 ==> ptr + count * size <= mem.bytes.Length
                           && forall k :: ptr <= k < ptr + count * size ==> mem.bytes[k] == 0
    {
      ghost var bs, m := blocks, mem.bytes[..];
      if ready { LiveKeptReflexive(m, bs, 0, first, end); }
      if count == 0 || size == 0 {
        return 0;
      }
      var fits, sum := CheckedMultiply(count, size);
      if !fits {
        return 0;
      }
      ptr := Malloc(sum);
      if ptr == 0 {
        return 0;
      }
      MallocFresh(bs, first, end, sum);
      ghost var b :| b in blocks && !b.free && b.Payload() == ptr && sum <= b.size && b.End() <= end;
      ghost var bs1, m1 := blocks, mem.bytes[..];
      Zero(ptr, sum, b);
      assert LiveKept(m, mem.bytes[..], bs, blocks, 0, first, end) by {
        LiveKeptFresh(m, m1, mem.bytes[..], bs, bs1, ptr, first, end);
      }
    }

    method Shrink(ptr: u32, size: u32, wanted: u32, ghost i: nat)
      requires Valid() && ready && i < |blocks| && blocks[i].Payload() == ptr && !blocks[i].free
      requires wanted == AlignUp(size) <= blocks[i].size
      modifies mem, mem.bytes, `blocks
      ensures Valid() && blocks == SplitAt(old(blocks), i, wanted)
      ensures LiveKept(old(mem.bytes[..]), mem.bytes[..], old(blocks), blocks, ptr, first, end)
      ensures size <= SIZE_GUARD ==> Copied(old(mem.bytes[..]), mem.bytes[..], ptr, ptr, size)
    {
      ghost var m, oldSize := mem.bytes[..], blocks[i].size;
      LiveCountSplit(blocks, i, wanted);
      SplitBlock(ptr - HEADER, wanted, i, ptr);
      if size <= SIZE_GUARD {
        SameBytesShorter(m, mem.bytes[..], ptr, size, Min(oldSize, blocks[i].size));
      }
    }

    /** The block takes over its free successor, then gives back what lies beyond `wanted`. */
    method MergeThenSplit(block: u32, wanted: u32, ghost i: nat)
      requires Shape() && i < |blocks| && blocks[i].addr == block && !blocks[i].free
      requires wanted % 16 == 0 && blocks[i].size < wanted && GrowsInPlace(blocks, i, wanted)
      modifies mem, mem.bytes, `blocks
      ensures Shape() && blocks == SplitAt(MergeAt(old(blocks), i), i, wanted)
      ensures LiveKept(old(mem.bytes[..]), mem.bytes[..], old(blocks), blocks, block + HEADER, first, end)
      ensures SameBytes(old(mem.bytes[..]), mem.bytes[..], block + HEADER, old(blocks)[i].size)
    {
      ghost var bs, m, p := blocks, mem.bytes[..], block + HEADER;
      MergeWithNext(block, i, p);
      ghost var bs1, m1 := blocks, mem.bytes[..];
      SplitBlock(block, wanted, i, p);
      LiveKeptTransitive(m, m1, mem.bytes[..], bs, bs1, blocks, p, p, first, end);
      SameBytesTransitive(m, m1, mem.bytes[..], p, bs[i].size, Min(bs1[i].size, blocks[i].size));
    }

    /** Writes the live magic over itself. */
    method MarkLive(block: u32, ghost i: nat)
      requires Shape() && i < |blocks| && blocks[i].addr == block && !blocks[i].free
      modifies mem, mem.bytes
      ensures Shape()
      ensures LiveKept(old(mem.bytes[..]), mem.bytes[..], blocks, blocks, block + HEADER, first, end)
      ensures SameBytes(old(mem.bytes[..]), mem.bytes[..], block + HEADER, blocks[i].size)
    {
      ghost var m := mem.bytes[..];
      assert SetFree(blocks, i, false) == blocks;
      WriteMagic(block, false, i);
      HeaderStoreSpares(m, mem.bytes[..], blocks, first, end, i, block + HEADER);
    }

    method GrowBlock(block: u32, wanted: u32, ghost i: nat)
      requires Shape() && i < |blocks| && blocks[i].addr == block && !blocks[i].free
      requires wanted % 16 == 0 && blocks[i].size < wanted && GrowsInPlace(blocks, i, wanted)
      modifies mem, mem.bytes, `blocks
      ensures Shape() && blocks == SplitAt(MergeAt(old(blocks), i), i, wanted)
      ensures LiveKept(old(mem.bytes[..]), mem.bytes[..], old(blocks), blocks, block + HEADER, first, end)
      ensures SameBytes(old(mem.bytes[..]), mem.bytes[..], block + HEADER, old(blocks)[i].size)
    {
      ghost var bs, m, p, n := blocks, mem.bytes[..], block + HEADER, blocks[i].size;
      GrownBlock(bs, i, wanted);
      MergeThenSplit(block, wanted, i);
      ghost var bs1, m1 := blocks, mem.bytes[..];
      ghost var n1 := bs1[i].size;
      MarkLive(block, i);
      LiveKeptTransitive(m, m1, mem.bytes[..], bs, bs1, bs1, p, p, first, end);
      SameBytesTransitive(m, m1, mem.bytes[..], p, n, n1);
    }

    method GrowInPlace(ptr: u32, wanted: u32, ghost i: nat)
      requires Valid() && ready && i < |blocks| && blocks[i].Payload() == ptr && !blocks[i].free
      requires wanted % 16 == 0 && blocks[i].size < wanted && GrowsInPlace(blocks, i, wanted)
      modifies mem, mem.bytes, `blocks
      ensures Valid() && blocks == SplitAt(MergeAt(old(blocks), i), i, wanted)
      ensures LiveKept(old(mem.bytes[..]), mem.bytes[..], old(blocks), blocks, ptr, first, end)
      ensures Copied(old(mem.bytes[..]), mem.bytes[..], ptr, ptr, old(blocks)[i].size)
    {
      LiveCountMerge(blocks, i);
      LiveCountSplit(MergeAt(blocks, i), i, wanted);
      GrowBlock(ptr - HEADER, wanted, i);
    }

    /** Allocates elsewhere, copies `n` bytes, and releases the old block. */
    method Move(ptr: u32, size: u32, n: u32, ghost i: nat) returns (replacement: u32)
      requires Valid() && ready && ptr != 0 && ptr % 16 == 0
      requires i < |blocks| && i == IndexOf(blocks, ptr) && !blocks[i].free && n == Min(blocks[i].size, size)
      modifies mem, mem.bytes, `blocks, `active
      ensures Valid()
      ensures var moved := MallocOutcome(old(blocks), size);
              replacement == moved.ptr
              && blocks == if moved.ptr == 0 then moved.blocks else FreeOutcome(moved.blocks, ptr)
      ensures LiveKept(old(mem.bytes[..]), mem.bytes[..], old(blocks), blocks,
                       if replacement == 0 then 0 else ptr, first, end)
      ensures replacement != 0 ==> Copied(old(mem.bytes[..]), mem.bytes[..], ptr, replacement, n)
    {
      ghost var bs, m := blocks, mem.bytes[..];
      ghost var a := bs[i];
      replacement := Malloc(size);
      if replacement == 0 {
        return;
      }
      MallocFresh(bs, first, end, size);
      ghost var b :| b in blocks && !b.free && b.Payload() == replacement && size <= b.size
                     && first <= b.addr && b.End() <= end;
      ghost var bs1, m1 := blocks, mem.bytes[..];
      assert a in bs && SamePayload(m, m1, a);
      PayloadPrefix(m, m1, a, n);
      PayloadsApart(bs1, first, end, a, b);
      IndexOfMember(bs1, ptr, a);
      CopyThenFree(replacement, ptr, n, b);
      LiveKeptFreshThen(m, m1, mem.bytes[..], bs, bs1, blocks, replacement, ptr, first, end);
    }

    /** The second half of a move: fill block `b` and release `ptr`. */
    method CopyThenFree(p: u32, ptr: u32, n: u32, ghost b: Block)
      requires Valid() && ready && Known(ptr) && ptr != p
      requires b in blocks && !b.free && p == b.Payload() && n <= b.size && b.End() <= end
      requires ptr + n <= mem.bytes.Length && (ptr + n <= b.addr || b.End() <= ptr)
      modifies mem, mem.bytes, `blocks, `active
      ensures Valid() && blocks == FreeOutcome(old(blocks), ptr)
      ensures LiveKeptBut(old(mem.bytes[..]), mem.bytes[..], old(blocks), blocks, p, ptr, first, end)
      ensures Copied(old(mem.bytes[..]), mem.bytes[..], ptr, p, n)
    {
      ghost var bs, m := blocks, mem.bytes[..];
      Copy(p, ptr, n, b);
      ghost var m1 := mem.bytes[..];
      Free(ptr);
      assert SamePayload(m1, mem.bytes[..], b);
      PayloadPrefix(m1, mem.bytes[..], b, n);
      LiveKeptTwo(m, m1, mem.bytes[..], bs, blocks, p, ptr, first, end);
    }

    /** Whether the successor is free and large enough. */
    method CanGrow(block: u32, oldSize: u32, wanted: u32, ghost i: nat) returns (grows: bool)
      requires Shape() && i < |blocks| && blocks[i].addr == block && blocks[i].size == oldSize
      ensures grows == GrowsInPlace(blocks, i, wanted)
    {
      var next := NextOf(block, i);
      if next == 0 {
        return false;
      }
      var nextFree := IsFree(next, i + 1);
      var nextSize := SizeOf(next, i + 1);
      grows := nextFree && oldSize + HEADER + nextSize >= wanted;
    }

    /** Resizes a live block: shrinks it, grows it over its successor, or moves it. */
    method Resize(ptr: u32, size: u32, ghost i: nat) returns (result: u32)
      requires Valid() && ready && ptr % 16 == 0 && ptr != 0 && size != 0
      requires i == IndexOf(blocks, ptr) < |blocks| && !blocks[i].free
      modifies mem, mem.bytes, `blocks, `active
      ensures Valid() && Outcome(blocks, result) == ReallocOutcome(old(blocks), ptr, size)
      ensures LiveKept(old(mem.bytes[..]), mem.bytes[..], old(blocks), blocks,
                       if result == 0 then 0 else ptr, first, end)
      ensures result != 0 && size <= SIZE_GUARD ==>
                Copied(old(mem.bytes[..]), mem.bytes[..], ptr, result, Min(old(blocks)[i].size, size))
    {
      var block: u32 := ptr - HEADER;
      var wanted := AlignUp(size);
      var oldSize := SizeOf(block, i);
      if wanted <= oldSize {
        Shrink(ptr, size, wanted, i);
        return ptr;
      }
      var grows := CanGrow(block, oldSize, wanted, i);
      if grows {
        ghost var m := mem.bytes[..];
        GrowInPlace(ptr, wanted, i);
        SameBytesShorter(m, mem.bytes[..], ptr, Min(oldSize, size), oldSize);
        return ptr;
      }
      result := Move(ptr, size, if oldSize < size then oldSize else size, i);
    }

    method Realloc(ptr: u32, size: u32) returns (result: u32)
      requires Valid() && Known(ptr)
      modifies mem, mem.bytes, `blocks, `active
      ensures Valid() && Outcome(blocks, result) == ReallocOutcome(old(blocks), ptr, size)
      ensures LiveKept(old(mem.bytes[..]), mem.bytes[..], old(blocks), blocks,
                       if result == 0 && size != 0 then 0 else ptr, first, end)
      ensures result != 0 && ptr != 0 && size <= SIZE_GUARD ==>
                var i := IndexOf(old(blocks), ptr);
                && i < |old(blocks)|
                && Copied(old(mem.bytes[..]), mem.bytes[..], ptr, result, Min(old(blocks)[i].size, size))
    {
      ghost var bs := blocks;
      LiveKeptReflexive(mem.bytes[..], bs, 0, first, end);
      if ptr == 0 {
        result := Malloc(size);
        return;
      }
      if size == 0 {
        Free(ptr);
        return 0;
      }
      if !ready || ptr % 16 != 0 {
        UnknownPointer(ptr);
        return 0;
      }
      ghost var i := IndexOf(bs, ptr);
      var wasFree := IsFree(ptr - HEADER, i);
      if wasFree {
        return 0;
      }
      result := Resize(ptr, size, i);
    }

    method UsableSize(ptr: u32) returns (size: u32)
      requires Valid() && Known(ptr) && ptr % 16 == 0
      ensures var i := IndexOf(blocks, ptr);
              size == if i == |blocks| || blocks[i].free then 0 else blocks[i].size
    {
      if !ready || ptr == 0 {
        UnknownPointer(ptr);
        return 0;
      }
      ghost var i := IndexOf(blocks, ptr);
      var wasFree := IsFree(ptr - HEADER, i);
      if wasFree {
        return 0;
      }
      size := SizeOf(ptr - HEADER, i);
    }

    method GetStats() returns (ok: bool, totalBytes: nat, freeBytes: nat, largest: nat, allocations: nat)
      requires Valid()
      ensures ok == ready
      ensures ok ==> freeBytes == FreeBytes(blocks) && IsLargestFree(blocks, largest)
      ensures ok ==> allocations == LiveCount(blocks) && totalBytes + HEADER == end - first
      ensures ok ==> freeBytes + LiveBytes(blocks) + HEADER * (|blocks| - 1) == totalBytes
    {
      freeBytes, largest, totalBytes, allocations := 0, 0, 0, 0;
      if !ready {
        return false, 0, 0, 0, 0;
      }
      var block: u32 := first;
      ghost var i: nat := 0;
      while block != 0
        invariant 0 <= i <= |blocks| && (block == 0 <==> i == |blocks|)
        invariant i < |blocks| ==> block == blocks[i].addr
        invariant freeBytes == FreeBytes(blocks[..i])
        invariant IsLargestFree(blocks[..i], largest)
        decreases |blocks| - i
      {
        assert blocks[..i+1][..i] == blocks[..i];
        var free := IsFree(block, i);
        if free {
          var size := SizeOf(block, i);
          freeBytes := freeBytes + size;
          LargestGrows(blocks, i, largest);
          if size > largest {
            largest := size;
          }
        }
        block := NextOf(block, i);
        i := i + 1;
      }
      assert blocks[..|blocks|] == blocks;
      BytesConserved(blocks, first, end, |blocks|);
      ok := true;
      totalBytes := total;
      allocations := active;
    }
  }
}
