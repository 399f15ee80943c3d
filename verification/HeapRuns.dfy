/** What holds of the block list over whole runs of allocator calls. */
module HeapRuns {
  import opened Machine
  import opened HeapBlocks
  import opened HeapContents

  datatype Op = Malloc(size: u32) | Free(ptr: nat) | Calloc(count: u32, item: u32)
    | Realloc(old_ptr: nat, new_size: u32)

  function Step(bs: seq<Block>, op: Op): (r: Outcome) {
    match op
    case Malloc(size) => MallocOutcome(bs, size)
    case Free(ptr) => Outcome(FreeOutcome(bs, ptr), 0)
    case Calloc(count, item) => CallocOutcome(bs, count, item)
    case Realloc(ptr, size) => ReallocOutcome(bs, ptr, size)
  }

  function Run(bs: seq<Block>, ops: seq<Op>): (r: seq<Block>)
    decreases ops
  {
    if |ops| == 0 then bs else Run(Step(bs, ops[0]).blocks, ops[1..])
  }

  // ---------------------------------------------------------------- tiling

  lemma {:induction false} RunTiles(bs: seq<Block>, lo: nat, hi: nat, ops: seq<Op>)
    requires Tiles(bs, lo, hi)
    ensures Tiles(Run(bs, ops), lo, hi)
    decreases ops
  {
    if |ops| > 0 {
      StepTiles(bs, lo, hi, ops[0]);
      RunTiles(Step(bs, ops[0]).blocks, lo, hi, ops[1..]);
    }
  }

  lemma StepTiles(bs: seq<Block>, lo: nat, hi: nat, op: Op)
    requires Tiles(bs, lo, hi)
    ensures Tiles(Step(bs, op).blocks, lo, hi)
  {
    match op
    case Malloc(size) => MallocTiles(bs, lo, hi, size);
    case Free(ptr) => FreeOutcomeTiles(bs, lo, hi, ptr);
    case Calloc(count, item) => if count * item < TWO32 { MallocTiles(bs, lo, hi, count * item); }
    case Realloc(ptr, size) => ReallocTiles(bs, lo, hi, ptr, size);
  }

  lemma PlacedWell(bs: seq<Block>, lo: nat, hi: nat, b: Block)
    requires Tiles(bs, lo, hi) && lo % 16 == 0 && b in bs
    ensures b.Payload() % 16 == 0 && lo <= b.addr && b.End() <= hi
  {
    var i :| 0 <= i < |bs| && bs[i] == b;
    AddressesAligned(bs, lo, hi, i);
    Within(bs, lo, hi, i);
    SumAligned(b.addr, 0);
  }

  /**
   After any run, live payloads are aligned, lie inside the region and are pairwise disjoint, and payloads and
   headers add up to the region.
   */
  lemma RunSafe(bs: seq<Block>, lo: nat, hi: nat, ops: seq<Op>)
    requires Tiles(bs, lo, hi) && lo % 16 == 0
    ensures var r := Run(bs, ops);
            && (forall b :: b in r ==> b.Payload() % 16 == 0 && lo <= b.addr && b.End() <= hi)
            && (forall b, c :: b in r && c in r && b != c ==> b.End() <= c.addr || c.End() <= b.addr)
            && FreeBytes(r) + LiveBytes(r) + HEADER * |r| == hi - lo
  {
    RunTiles(bs, lo, hi, ops);
    var r := Run(bs, ops);
    forall b | b in r ensures b.Payload() % 16 == 0 && lo <= b.addr && b.End() <= hi {
      PlacedWell(r, lo, hi, b);
    }
    forall b, c | b in r && c in r && b != c ensures b.End() <= c.addr || c.End() <= b.addr {
      PayloadsApart(r, lo, hi, b, c);
    }
    BytesConserved(r, lo, hi, |r|);
    assert r[..|r|] == r;
  }

  // ---------------------------------------------------------------- when an allocation succeeds

  lemma MallocComplete(bs: seq<Block>, size: u32, largest: nat)
    requires IsLargestFree(bs, largest)
    ensures MallocOutcome(bs, size).ptr != 0 <==> 0 < size <= SIZE_GUARD && AlignUp(size) <= largest
    ensures MallocOutcome(bs, size).ptr == 0 ==> MallocOutcome(bs, size).blocks == bs
  {
    var i := FirstFit(bs, AlignUp(size), 0);
    if 0 < size <= SIZE_GUARD && AlignUp(size) <= largest {
      var j :| 0 <= j < |bs| && bs[j].free && bs[j].size == largest;
      assert Fits(bs[j], AlignUp(size));
    }
  }

  /** First fit: no block below the one returned was free and large enough. */
  lemma MallocLowest(bs: seq<Block>, lo: nat, hi: nat, size: u32, b: Block)
    requires Tiles(bs, lo, hi) && MallocOutcome(bs, size).ptr != 0
    requires b in bs && b.free && AlignUp(size) <= b.size
    ensures MallocOutcome(bs, size).ptr <= b.Payload()
  {
    var i := FirstFit(bs, AlignUp(size), 0);
    var j :| 0 <= j < |bs| && bs[j] == b;
    assert Fits(bs[j], AlignUp(size));
    if i < j { Ordered(bs, lo, hi, i, j); }
  }

  lemma CallocComplete(bs: seq<Block>, count: u32, item: u32, largest: nat)
    requires IsLargestFree(bs, largest)
    ensures CallocOutcome(bs, count, item).ptr != 0 <==>
            0 < count * item <= SIZE_GUARD && AlignUp(count * item) <= largest
    ensures CallocOutcome(bs, count, item).ptr == 0 ==> CallocOutcome(bs, count, item).blocks == bs
  {
    assert count * item >= 0;
    if count * item < TWO32 {
      MallocComplete(bs, count * item, largest);
    }
  }

  // ---------------------------------------------------------------- realloc and the missing size guard

  function UsableSize(bs: seq<Block>, ptr: nat): (r: nat) {
    var i := IndexOf(bs, ptr);
    if i == |bs| || bs[i].free then 0 else bs[i].size
  }

  predicate IsLive(bs: seq<Block>, ptr: nat) {
    IndexOf(bs, ptr) < |bs| && !bs[IndexOf(bs, ptr)].free
  }

  lemma LiveAt(bs: seq<Block>, lo: nat, hi: nat, b: Block)
    requires Tiles(bs, lo, hi) && b in bs && !b.free
    ensures IsLive(bs, b.Payload()) && bs[IndexOf(bs, b.Payload())] == b
  {
    var i :| 0 <= i < |bs| && bs[i] == b;
    IndexOfPayload(bs, lo, hi, i);
  }

  /** Splitting a live block leaves it live at the same address, with the size asked for or all it had. */
  lemma SplitRoom(bs: seq<Block>, lo: nat, hi: nat, i: nat, wanted: nat)
    requires Tiles(bs, lo, hi) && i < |bs| && !bs[i].free && wanted % 16 == 0 && wanted <= bs[i].size
    ensures var s, ptr := SplitAt(bs, i, wanted), bs[i].Payload();
            IsLive(s, ptr) && wanted <= UsableSize(s, ptr) < wanted + HEADER + ALIGNMENT
  {
    var s := SplitAt(bs, i, wanted);
    SplitTiles(bs, lo, hi, i, wanted);
    assert s[i] in s && !s[i].free && s[i].Payload() == bs[i].Payload();
    LiveAt(s, lo, hi, s[i]);
  }

  /** Carving leaves a live block at the address, with the size asked for and less than a smallest block more. */
  lemma CarveRoom(bs: seq<Block>, lo: nat, hi: nat, i: nat, wanted: nat)
    requires Tiles(bs, lo, hi) && i < |bs| && Fits(bs[i], wanted) && wanted % 16 == 0
    ensures var s, ptr := Carve(bs, i, wanted), bs[i].Payload();
            IsLive(s, ptr) && wanted <= UsableSize(s, ptr) < wanted + HEADER + ALIGNMENT
  {
    var s := Carve(bs, i, wanted);
    SplitTiles(bs, lo, hi, i, wanted);
    SetFreeTiles(SplitAt(bs, i, wanted), lo, hi, i, false);
    assert s[i] in s && !s[i].free && s[i].Payload() == bs[i].Payload();
    LiveAt(s, lo, hi, s[i]);
  }

  /** A new block has the room asked for, rounded up, and less than a smallest block more. */
  lemma MallocTight(bs: seq<Block>, lo: nat, hi: nat, size: u32)
    requires Tiles(bs, lo, hi) && MallocOutcome(bs, size).ptr != 0
    ensures var r := MallocOutcome(bs, size);
            && IsLive(r.blocks, r.ptr)
            && size <= AlignUp(size) <= UsableSize(r.blocks, r.ptr) < AlignUp(size) + HEADER + ALIGNMENT
  {
    CarveRoom(bs, lo, hi, FirstFit(bs, AlignUp(size), 0), AlignUp(size));
  }

  lemma MoveRoom(bs: seq<Block>, lo: nat, hi: nat, ptr: nat, size: u32)
    requires Tiles(bs, lo, hi) && IsLive(bs, ptr) && MallocOutcome(bs, size).ptr != 0
    ensures var moved := MallocOutcome(bs, size);
            var r := FreeOutcome(moved.blocks, ptr);
            && moved.ptr != ptr && IsLive(r, moved.ptr)
            && AlignUp(size) <= UsableSize(r, moved.ptr) < AlignUp(size) + HEADER + ALIGNMENT
  {
    MallocFresh(bs, lo, hi, size);
    MallocTiles(bs, lo, hi, size);
    MallocTight(bs, lo, hi, size);
    var moved := MallocOutcome(bs, size);
    FreeOutcomeTiles(moved.blocks, lo, hi, ptr);
    var b := moved.blocks[IndexOf(moved.blocks, moved.ptr)];
    assert bs[IndexOf(bs, ptr)] in bs;
    FreeOutcomeKeeps(moved.blocks, ptr, b);
    LiveAt(FreeOutcome(moved.blocks, ptr), lo, hi, b);
  }

  /**
   A successful realloc of a live block gives the room asked for exactly when rounding does not wrap; and never a
   smallest block more than the rounded size.
   */
  lemma ReallocRoom(bs: seq<Block>, lo: nat, hi: nat, ptr: nat, size: u32)
    requires Tiles(bs, lo, hi) && hi <= SIZE_GUARD && IsLive(bs, ptr) && size > 0
    requires ReallocOutcome(bs, ptr, size).ptr != 0
    ensures var r := ReallocOutcome(bs, ptr, size);
            && IsLive(r.blocks, r.ptr) && (UsableSize(r.blocks, r.ptr) >= size <==> size <= SIZE_GUARD)
            && AlignUp(size) <= UsableSize(r.blocks, r.ptr) < AlignUp(size) + HEADER + ALIGNMENT
  {
    var i, wanted := IndexOf(bs, ptr), AlignUp(size);
    if ptr == 0 {
      Within(bs, lo, hi, i);
    } else if wanted <= bs[i].size {
      SplitRoom(bs, lo, hi, i, wanted);
      assert size > SIZE_GUARD ==> wanted == 0;
    } else if GrowsInPlace(bs, i, wanted) {
      MergeTiles(bs, lo, hi, i);
      SplitRoom(MergeAt(bs, i), lo, hi, i, wanted);
    } else {
      MoveRoom(bs, lo, hi, ptr, size);
    }
  }

  /** There is room for `wanted` bytes where the block lies: in itself, or with a free successor. */
  predicate RoomInPlace(bs: seq<Block>, i: nat, wanted: nat)
    requires i < |bs|
  {
    || wanted <= bs[i].size
    || (i + 1 < |bs| && bs[i+1].free && wanted <= bs[i].size + HEADER + bs[i+1].size)
  }

  /**
   When a realloc of a live block succeeds, and when it stays: it succeeds if and only if there is room in place or in
   the largest free block, keeps its address if and only if there is room in place, and a failure changes nothing.
   */
  lemma ReallocExactly(bs: seq<Block>, lo: nat, hi: nat, ptr: nat, size: u32, largest: nat)
    requires Tiles(bs, lo, hi) && IsLive(bs, ptr) && ptr != 0 && 0 < size <= SIZE_GUARD && IsLargestFree(bs, largest)
    ensures var r, i := ReallocOutcome(bs, ptr, size), IndexOf(bs, ptr);
            && (r.ptr != 0 <==> RoomInPlace(bs, i, AlignUp(size)) || AlignUp(size) <= largest)
            && (r.ptr == ptr <==> RoomInPlace(bs, i, AlignUp(size)))
            && (r.ptr == 0 ==> r.blocks == bs)
  {
    if !RoomInPlace(bs, IndexOf(bs, ptr), AlignUp(size)) {
      MallocComplete(bs, size, largest);
      if MallocOutcome(bs, size).ptr != 0 {
        MoveRoom(bs, lo, hi, ptr, size);
      }
    }
  }

  /** An oversized request always "succeeds" on a live block, by cutting the block down to nothing. */
  lemma OversizedRealloc(bs: seq<Block>, ptr: nat, size: u32)
    requires IsLive(bs, ptr) && ptr != 0 && size > SIZE_GUARD
    ensures ReallocOutcome(bs, ptr, size) == Outcome(SplitAt(bs, IndexOf(bs, ptr), 0), ptr)
  {
  }

  lemma FreeOutcomeKeeps(bs: seq<Block>, ptr: nat, b: Block)
    requires b in bs && !b.free && b.Payload() != ptr
    ensures b in FreeOutcome(bs, ptr)
  {
    var i := IndexOf(bs, ptr);
    if i < |bs| && !bs[i].free {
      var bs1 := SetFree(bs, i, true);
      SetFreeKeeps(bs, i, true);
      MergeKeeps(bs1, i);
      if i > 0 {
        var bs2 := MergeAt(bs1, i);
        if bs2[i-1].free { MergeKeeps(bs2, i - 1); }
      }
    }
  }

  ghost predicate Roomy(bs: seq<Block>) {
    forall b :: b in bs ==> b.size >= ALIGNMENT
  }

  lemma SplitRoomy(bs: seq<Block>, i: nat, wanted: nat)
    requires Roomy(bs) && i < |bs| && wanted >= ALIGNMENT
    ensures Roomy(SplitAt(bs, i, wanted))
  {
  }

  lemma MergeRoomy(bs: seq<Block>, i: nat)
    requires Roomy(bs) && i < |bs|
    ensures Roomy(MergeAt(bs, i))
  {
  }

  lemma SetFreeRoomy(bs: seq<Block>, i: nat, free: bool)
    requires Roomy(bs) && i < |bs|
    ensures Roomy(SetFree(bs, i, free))
  {
  }

  lemma MallocRoomy(bs: seq<Block>, size: u32)
    requires Roomy(bs)
    ensures Roomy(MallocOutcome(bs, size).blocks)
  {
    var i := FirstFit(bs, AlignUp(size), 0);
    if 0 < size <= SIZE_GUARD && i < |bs| {
      SplitRoomy(bs, i, AlignUp(size));
      SetFreeRoomy(SplitAt(bs, i, AlignUp(size)), i, false);
    }
  }

  lemma FreeRoomy(bs: seq<Block>, ptr: nat)
    requires Roomy(bs)
    ensures Roomy(FreeOutcome(bs, ptr))
  {
    var i := IndexOf(bs, ptr);
    if i < |bs| && !bs[i].free {
      var bs1 := SetFree(bs, i, true);
      SetFreeRoomy(bs, i, true);
      MergeRoomy(bs1, i);
      if i > 0 { MergeRoomy(MergeAt(bs1, i), i - 1); }
    }
  }

  lemma CallocRoomy(bs: seq<Block>, count: u32, item: u32)
    requires Roomy(bs)
    ensures Roomy(CallocOutcome(bs, count, item).blocks)
  {
    var n: nat := count * item;
    if n < TWO32 {
      MallocRoomy(bs, n);
    }
  }

  /** A realloc whose size wraps to nothing when rounded, of a live block large enough to split. */
  predicate CutsToNothing(bs: seq<Block>, op: Op) {
    && op.Realloc? && op.new_size > SIZE_GUARD && op.old_ptr != 0 && IsLive(bs, op.old_ptr)
    && bs[IndexOf(bs, op.old_ptr)].size >= HEADER + ALIGNMENT
  }

  /** No call of the run cuts a block down to nothing. */
  predicate NeverCuts(bs: seq<Block>, ops: seq<Op>)
    decreases ops
  {
    |ops| == 0 || (!CutsToNothing(bs, ops[0]) && NeverCuts(Step(bs, ops[0]).blocks, ops[1..]))
  }

  /** Every block keeps at least 16 payload bytes as long as no realloc cuts one down. */
  lemma {:induction false} RunRoomy(bs: seq<Block>, ops: seq<Op>)
    requires Roomy(bs) && NeverCuts(bs, ops)
    ensures Roomy(Run(bs, ops))
    decreases ops
  {
    if |ops| > 0 {
      StepRoomy(bs, ops[0]);
      RunRoomy(Step(bs, ops[0]).blocks, ops[1..]);
    }
  }

  /** One call leaves a block without payload exactly when it is an oversized realloc of a block that splits. */
  lemma StepRoomy(bs: seq<Block>, op: Op)
    requires Roomy(bs)
    ensures Roomy(Step(bs, op).blocks) <==> !CutsToNothing(bs, op)
  {
    match op
    case Malloc(size) => MallocRoomy(bs, size);
    case Free(ptr) => FreeRoomy(bs, ptr);
    case Calloc(count, item) => CallocRoomy(bs, count, item);
    case Realloc(ptr, size) => ReallocRoomy(bs, ptr, size);
  }

  lemma SplitToNothing(bs: seq<Block>, i: nat)
    requires Roomy(bs) && i < |bs|
    ensures Roomy(SplitAt(bs, i, 0)) <==> bs[i].size < HEADER + ALIGNMENT
  {
    var r := SplitAt(bs, i, 0);
    if bs[i].size >= HEADER + ALIGNMENT {
      assert r[i] in r && r[i].size == 0;
    }
  }

  lemma ReallocRoomy(bs: seq<Block>, ptr: nat, size: u32)
    requires Roomy(bs)
    ensures Roomy(ReallocOutcome(bs, ptr, size).blocks) <==> !CutsToNothing(bs, Realloc(ptr, size))
  {
    var i, wanted := IndexOf(bs, ptr), AlignUp(size);
    if ptr == 0 {
      MallocRoomy(bs, size);
    } else if size == 0 || !IsLive(bs, ptr) {
      FreeRoomy(bs, ptr);
    } else if size > SIZE_GUARD {
      OversizedRealloc(bs, ptr, size);
      SplitToNothing(bs, i);
    } else if wanted <= bs[i].size {
      SplitRoomy(bs, i, wanted);
    } else if GrowsInPlace(bs, i, wanted) {
      MergeRoomy(bs, i);
      SplitRoomy(MergeAt(bs, i), i, wanted);
    } else {
      MallocRoomy(bs, size);
      FreeRoomy(MallocOutcome(bs, size).blocks, ptr);
    }
  }

  // ---------------------------------------------------------------- coalescing

  predicate FreePair(bs: seq<Block>, i: nat)
    requires 0 < i < |bs|
  {
    bs[i-1].free && bs[i].free
  }

  ghost predicate Coalesced(bs: seq<Block>) {
    forall i :: 0 < i < |bs| ==> !FreePair(bs, i)
  }

  /** A realloc that splits a live block whose successor is already free. */
  predicate LeavesFreePair(bs: seq<Block>, op: Op) {
    && op.Realloc? && op.new_size > 0 && op.old_ptr != 0 && IsLive(bs, op.old_ptr)
    && var i, wanted := IndexOf(bs, op.old_ptr), AlignUp(op.new_size);
       wanted + HEADER + ALIGNMENT <= bs[i].size && CanMerge(bs, i)
  }

  lemma CarveCoalesced(bs: seq<Block>, i: nat, wanted: nat)
    requires Coalesced(bs) && i < |bs| && Fits(bs[i], wanted)
    ensures Coalesced(Carve(bs, i, wanted))
  {
    var r := Carve(bs, i, wanted);
    forall k | 0 < k < |r| ensures !FreePair(r, k) {
      if |r| == |bs| {
        assert !FreePair(bs, k);
      } else {
        if k < i { assert !FreePair(bs, k); }
        if k == i + 2 { assert !FreePair(bs, i + 1); }
        if k > i + 2 { assert !FreePair(bs, k - 1); }
      }
    }
  }

  lemma MallocCoalesced(bs: seq<Block>, size: u32)
    requires Coalesced(bs)
    ensures Coalesced(MallocOutcome(bs, size).blocks)
  {
    var i := FirstFit(bs, AlignUp(size), 0);
    if 0 < size <= SIZE_GUARD && i < |bs| {
      CarveCoalesced(bs, i, AlignUp(size));
    }
  }

  lemma FreeCoalesced(bs: seq<Block>, i: nat)
    requires Coalesced(bs) && i < |bs| && !bs[i].free
    ensures Coalesced(FreeAt(bs, i))
  {
    var bs1 := SetFree(bs, i, true);
    var bs2 := MergeAt(bs1, i);
    forall k | 0 < k < |bs2| && k != i ensures !FreePair(bs2, k) {
      if |bs2| == |bs| || k < i {
        assert k != i + 1 ==> !FreePair(bs, k);
      } else {
        assert !FreePair(bs, k + 1);
        assert k == i + 1 ==> !FreePair(bs, i + 2);
      }
    }
    if 0 < i && bs2[i-1].free {
      var bs3 := MergeAt(bs2, i - 1);
      assert |bs3| == |bs2| - 1;
      forall k | 0 < k < |bs3| ensures !FreePair(bs3, k) {
        if k < i { assert !FreePair(bs2, k); } else { assert !FreePair(bs2, k + 1); }
      }
    } else {
      assert 0 < i < |bs2| ==> !FreePair(bs2, i);
    }
  }

  lemma FreeOutcomeCoalesced(bs: seq<Block>, ptr: nat)
    requires Coalesced(bs)
    ensures Coalesced(FreeOutcome(bs, ptr))
  {
    var i := IndexOf(bs, ptr);
    if i < |bs| && !bs[i].free {
      FreeCoalesced(bs, i);
    }
  }

  lemma ShrinkCoalesced(bs: seq<Block>, i: nat, wanted: nat)
    requires Coalesced(bs) && i < |bs| && !bs[i].free
    ensures Coalesced(SplitAt(bs, i, wanted)) <==> !(wanted + HEADER + ALIGNMENT <= bs[i].size && CanMerge(bs, i))
  {
    var r := SplitAt(bs, i, wanted);
    if r != bs {
      if CanMerge(bs, i) {
        assert FreePair(r, i + 2);
      } else {
        forall k | 0 < k < |r| ensures !FreePair(r, k) {
          if k < i { assert !FreePair(bs, k); }
          if k > i + 2 { assert !FreePair(bs, k - 1); }
        }
      }
    }
  }

  lemma GrowCoalesced(bs: seq<Block>, i: nat, wanted: nat)
    requires Coalesced(bs) && i < |bs| && !bs[i].free && CanMerge(bs, i)
    ensures Coalesced(SplitAt(MergeAt(bs, i), i, wanted))
  {
    var r := MergeAt(bs, i);
    forall k | 0 < k < |r| ensures !FreePair(r, k) {
      if k < i { assert !FreePair(bs, k); }
      if k > i { assert !FreePair(bs, k + 1); }
    }
    if i + 2 < |bs| { assert !FreePair(bs, i + 2); }
    ShrinkCoalesced(r, i, wanted);
  }

  lemma CallocCoalesced(bs: seq<Block>, count: u32, item: u32)
    requires Coalesced(bs)
    ensures Coalesced(CallocOutcome(bs, count, item).blocks)
  {
    var n: nat := count * item;
    if n < TWO32 {
      MallocCoalesced(bs, n);
    }
  }

  lemma ReallocCoalesced(bs: seq<Block>, ptr: nat, size: u32)
    requires Coalesced(bs)
    ensures Coalesced(ReallocOutcome(bs, ptr, size).blocks) <==> !LeavesFreePair(bs, Realloc(ptr, size))
  {
    var i, wanted := IndexOf(bs, ptr), AlignUp(size);
    if ptr == 0 {
      MallocCoalesced(bs, size);
    } else if size == 0 {
      FreeOutcomeCoalesced(bs, ptr);
    } else if i < |bs| && !bs[i].free {
      if wanted <= bs[i].size {
        ShrinkCoalesced(bs, i, wanted);
      } else if GrowsInPlace(bs, i, wanted) {
        GrowCoalesced(bs, i, wanted);
      } else {
        MallocCoalesced(bs, size);
        FreeOutcomeCoalesced(MallocOutcome(bs, size).blocks, ptr);
      }
    }
  }

  /** From a coalesced list, a call leaves two free neighbours exactly when it is a shrink before a free block. */
  lemma StepCoalesced(bs: seq<Block>, op: Op)
    requires Coalesced(bs)
    ensures Coalesced(Step(bs, op).blocks) <==> !LeavesFreePair(bs, op)
  {
    match op
    case Malloc(size) => MallocCoalesced(bs, size);
    case Free(ptr) => FreeOutcomeCoalesced(bs, ptr);
    case Calloc(count, item) => CallocCoalesced(bs, count, item);
    case Realloc(ptr, size) => ReallocCoalesced(bs, ptr, size);
  }

  /** No call of the run is a shrink before a free block. */
  predicate Clean(bs: seq<Block>, ops: seq<Op>)
    decreases ops
  {
    |ops| == 0 || (!LeavesFreePair(bs, ops[0]) && Clean(Step(bs, ops[0]).blocks, ops[1..]))
  }

  lemma {:induction false} RunCoalesced(bs: seq<Block>, ops: seq<Op>)
    requires Coalesced(bs) && Clean(bs, ops)
    ensures Coalesced(Run(bs, ops))
    decreases ops
  {
    if |ops| > 0 {
      StepCoalesced(bs, ops[0]);
      RunCoalesced(Step(bs, ops[0]).blocks, ops[1..]);
    }
  }

  lemma {:induction false} NoLiveBlocks(bs: seq<Block>, lo: nat, hi: nat)
    requires Tiles(bs, lo, hi) && Coalesced(bs) && lo + HEADER <= hi
    requires forall b :: b in bs ==> b.free
    ensures bs == [Block(lo, hi - lo - HEADER, true)]
  {
    if |bs| > 1 {
      assert bs[0] in bs && bs[1] in bs;
      assert FreePair(bs, 1);
    }
    assert bs[0] in bs;
  }

  function Frees(ptrs: seq<nat>): (ops: seq<Op>)
    ensures |ops| == |ptrs|
  {
    if |ptrs| == 0 then [] else [Free(ptrs[0])] + Frees(ptrs[1..])
  }

  ghost predicate CoversLive(bs: seq<Block>, ptrs: seq<nat>) {
    forall b :: b in bs && !b.free ==> b.Payload() in ptrs
  }

  /** A live block of the list after a free was live before, and is not the one freed. */
  lemma FreeOnlyRemoves(bs: seq<Block>, lo: nat, hi: nat, ptr: nat, b: Block)
    requires Tiles(bs, lo, hi) && b in FreeOutcome(bs, ptr) && !b.free
    ensures b in bs && b.Payload() != ptr
  {
    var i := IndexOf(bs, ptr);
    if i == |bs| {
      var j :| 0 <= j < |bs| && bs[j] == b;
    } else if bs[i].free {
      var j :| 0 <= j < |bs| && bs[j] == b;
      if b.Payload() == ptr { IndexOfPayload(bs, lo, hi, j); }
    } else {
      var bs1 := SetFree(bs, i, true);
      MergeOnlyRemoves(bs1, i, b);
      if i > 0 && bs1[i-1].free { MergeOnlyRemoves(MergeAt(bs1, i), i - 1, b); }
      var j :| 0 <= j < |bs1| && bs1[j] == b;
      assert j != i && bs[j] == b;
      if b.Payload() == ptr { IndexOfPayload(bs, lo, hi, j); }
    }
  }

  /** A free ends the life of its pointer and of no other. */
  lemma FreeEndsOne(bs: seq<Block>, lo: nat, hi: nat, ptr: nat, other: nat)
    requires Tiles(bs, lo, hi)
    ensures !IsLive(FreeOutcome(bs, ptr), ptr)
    ensures other != ptr ==>
              && (IsLive(FreeOutcome(bs, ptr), other) <==> IsLive(bs, other))
              && UsableSize(FreeOutcome(bs, ptr), other) == UsableSize(bs, other)
  {
    var r := FreeOutcome(bs, ptr);
    FreeOutcomeTiles(bs, lo, hi, ptr);
    if IsLive(r, ptr) {
      FreeOnlyRemoves(bs, lo, hi, ptr, r[IndexOf(r, ptr)]);
    }
    if other != ptr && IsLive(r, other) {
      var b := r[IndexOf(r, other)];
      FreeOnlyRemoves(bs, lo, hi, ptr, b);
      LiveAt(bs, lo, hi, b);
    }
    if other != ptr && IsLive(bs, other) {
      var b := bs[IndexOf(bs, other)];
      FreeOutcomeKeeps(bs, ptr, b);
      LiveAt(r, lo, hi, b);
    }
  }

  /** A realloc of null allocates, one to size 0 frees, and one of a pointer that is not live does nothing. */
  lemma ReallocEdges(bs: seq<Block>, lo: nat, hi: nat, ptr: nat, size: u32, largest: nat)
    requires Tiles(bs, lo, hi) && IsLargestFree(bs, largest)
    ensures var r := ReallocOutcome(bs, ptr, size);
            && (ptr == 0 ==> (r.ptr != 0 <==> 0 < size <= SIZE_GUARD && AlignUp(size) <= largest))
            && (ptr == 0 && r.ptr != 0 ==> IsLive(r.blocks, r.ptr) && size <= UsableSize(r.blocks, r.ptr))
            && (ptr != 0 && size == 0 ==> r.ptr == 0 && !IsLive(r.blocks, ptr))
            && (ptr != 0 && !IsLive(bs, ptr) ==> r == Outcome(bs, 0))
  {
    if ptr == 0 {
      MallocComplete(bs, size, largest);
      if MallocOutcome(bs, size).ptr != 0 { MallocTight(bs, lo, hi, size); }
    } else {
      FreeEndsOne(bs, lo, hi, ptr, 0);
    }
  }

  lemma MergeOnlyRemoves(bs: seq<Block>, i: nat, b: Block)
    requires i < |bs| && bs[i].free
    ensures b in MergeAt(bs, i) && !b.free ==> b in bs
  {
  }

  lemma {:induction false} FreesLeaveNothing(bs: seq<Block>, lo: nat, hi: nat, ptrs: seq<nat>)
    requires Tiles(bs, lo, hi) && Coalesced(bs) && CoversLive(bs, ptrs) && lo + HEADER <= hi
    ensures Run(bs, Frees(ptrs)) == [Block(lo, hi - lo - HEADER, true)]
    decreases ptrs
  {
    if |ptrs| == 0 {
      NoLiveBlocks(bs, lo, hi);
    } else {
      var next := FreeOutcome(bs, ptrs[0]);
      FreeOutcomeTiles(bs, lo, hi, ptrs[0]);
      FreeOutcomeCoalesced(bs, ptrs[0]);
      forall b | b in next && !b.free ensures b.Payload() in ptrs[1..] {
        FreeOnlyRemoves(bs, lo, hi, ptrs[0], b);
      }
      FreesLeaveNothing(next, lo, hi, ptrs[1..]);
      assert Frees(ptrs)[1..] == Frees(ptrs[1..]);
    }
  }

  /** Merging at a free block removes only the pair it merges. */
  lemma MergeKeepsPair(bs: seq<Block>, i: nat, k: nat) returns (k': nat)
    requires i < |bs| && bs[i].free && 0 < k < |bs| && FreePair(bs, k) && k != i + 1
    ensures 0 < k' < |MergeAt(bs, i)| && FreePair(MergeAt(bs, i), k')
    ensures if k <= i then k' == k else k' > i
  {
    k' := if k <= i || !CanMerge(bs, i) then k else k - 1;
  }

  /** A free joins its own block with its neighbours, and no two other free blocks. */
  lemma FreeKeepsPairs(bs: seq<Block>, ptr: nat)
    requires !Coalesced(bs)
    ensures !Coalesced(FreeOutcome(bs, ptr))
  {
    var i := IndexOf(bs, ptr);
    var k: nat :| 0 < k < |bs| && FreePair(bs, k);
    if i < |bs| && !bs[i].free {
      var bs1 := SetFree(bs, i, true);
      assert FreePair(bs1, k);
      k := MergeKeepsPair(bs1, i, k);
      var bs2 := MergeAt(bs1, i);
      if i > 0 && bs2[i-1].free {
        k := MergeKeepsPair(bs2, i - 1, k);
      }
    }
  }

  /** Freeing every live pointer leaves one free block if and only if there were no free neighbours to begin with. */
  lemma FreesRestoreExactly(bs: seq<Block>, lo: nat, hi: nat, ptrs: seq<nat>)
    requires Tiles(bs, lo, hi) && CoversLive(bs, ptrs) && lo + HEADER <= hi
    ensures Run(bs, Frees(ptrs)) == [Block(lo, hi - lo - HEADER, true)] <==> Coalesced(bs)
  {
    if Coalesced(bs) {
      FreesLeaveNothing(bs, lo, hi, ptrs);
    } else {
      FreesKeepPairs(bs, ptrs);
    }
  }

  lemma {:induction false} FreesKeepPairs(bs: seq<Block>, ptrs: seq<nat>)
    requires !Coalesced(bs)
    ensures !Coalesced(Run(bs, Frees(ptrs)))
    decreases ptrs
  {
    if |ptrs| > 0 {
      FreeKeepsPairs(bs, ptrs[0]);
      FreesKeepPairs(FreeOutcome(bs, ptrs[0]), ptrs[1..]);
      assert Frees(ptrs)[1..] == Frees(ptrs[1..]);
    }
  }

  /**
   After any clean run from a fresh heap, freeing every live pointer, in any order, restores the one free block
   the heap began with.
   */
  lemma FreeAllRestores(lo: nat, hi: nat, ops: seq<Op>, ptrs: seq<nat>)
    requires lo % 16 == 0 && hi % 16 == 0 && lo + HEADER <= hi
    requires var fresh_heap := [Block(lo, hi - lo - HEADER, true)];
             Clean(fresh_heap, ops) && CoversLive(Run(fresh_heap, ops), ptrs)
    ensures var fresh_heap := [Block(lo, hi - lo - HEADER, true)];
            Run(Run(fresh_heap, ops), Frees(ptrs)) == fresh_heap
  {
    FreeAllFrom([Block(lo, hi - lo - HEADER, true)], lo, hi, ops, ptrs);
  }

  /** And after any run at all, exactly when the run has left no two free neighbours. */
  lemma FreeAllExactly(lo: nat, hi: nat, ops: seq<Op>, ptrs: seq<nat>)
    requires lo % 16 == 0 && hi % 16 == 0 && lo + HEADER <= hi
    requires var fresh_heap := [Block(lo, hi - lo - HEADER, true)]; CoversLive(Run(fresh_heap, ops), ptrs)
    ensures var fresh_heap := [Block(lo, hi - lo - HEADER, true)];
            Run(Run(fresh_heap, ops), Frees(ptrs)) == fresh_heap <==> Coalesced(Run(fresh_heap, ops))
  {
    FreedExactly([Block(lo, hi - lo - HEADER, true)], lo, hi, ops, ptrs);
  }

  lemma FreedExactly(bs: seq<Block>, lo: nat, hi: nat, ops: seq<Op>, ptrs: seq<nat>)
    requires lo % 16 == 0 && hi % 16 == 0 && lo + HEADER <= hi && bs == [Block(lo, hi - lo - HEADER, true)]
    requires CoversLive(Run(bs, ops), ptrs)
    ensures Run(Run(bs, ops), Frees(ptrs)) == bs <==> Coalesced(Run(bs, ops))
  {
    FreshTiles(bs, lo, hi);
    RunTiles(bs, lo, hi, ops);
    FreesRestoreExactly(Run(bs, ops), lo, hi, ptrs);
  }

  lemma FreeAllFrom(bs: seq<Block>, lo: nat, hi: nat, ops: seq<Op>, ptrs: seq<nat>)
    requires lo % 16 == 0 && hi % 16 == 0 && lo + HEADER <= hi && bs == [Block(lo, hi - lo - HEADER, true)]
    requires Clean(bs, ops) && CoversLive(Run(bs, ops), ptrs)
    ensures Run(Run(bs, ops), Frees(ptrs)) == bs
  {
    FreshTiles(bs, lo, hi);
    RunTiles(bs, lo, hi, ops);
    RunCoalesced(bs, ops);
    FreesLeaveNothing(Run(bs, ops), lo, hi, ptrs);
  }

  lemma FreshTiles(bs: seq<Block>, lo: nat, hi: nat)
    requires lo % 16 == 0 && hi % 16 == 0 && lo + HEADER <= hi && bs == [Block(lo, hi - lo - HEADER, true)]
    ensures Tiles(bs, lo, hi) && Coalesced(bs)
  {
    assert SizeAligned(bs, 0) by { assert hi - lo - HEADER == 16 * (hi / 16 - lo / 16 - 1); }
  }

  /** The side condition is needed: one allocation, one shrink, one free, and the heap stays in two pieces. */
  lemma ShrinkFragments()
    ensures var fresh_heap := [Block(16, 1008, true)];
            var run := [Malloc(64), Realloc(32, 16), Free(32)];
            && !Clean(fresh_heap, run)
            && Run(fresh_heap, run) == [Block(16, 64, true), Block(96, 928, true)]
  {
    var s0 := [Block(16, 1008, true)];
    var s1 := [Block(16, 64, false), Block(96, 928, true)];
    var s2 := [Block(16, 16, false), Block(48, 32, true), Block(96, 928, true)];
    var s3 := [Block(16, 64, true), Block(96, 928, true)];
    var run := [Malloc(64), Realloc(32, 16), Free(32)];
    assert FirstFit(s0, 64, 0) == 0;
    assert Step(s0, run[0]).blocks == s1;
    assert IndexOf(s1[..1], 32) == 0;
    assert IndexOf(s1, 32) == 0;
    assert Step(s1, run[1]).blocks == s2;
    assert IndexOf(s2[..1], 32) == 0 && s2[..2][..1] == s2[..1];
    assert IndexOf(s2[..2], 32) == 0;
    assert IndexOf(s2, 32) == 0;
    assert Step(s2, run[2]).blocks == s3;
    assert run[1..][0] == run[1] && run[1..][1..] == run[2..] && run[2..][0] == run[2] && run[2..][1..] == [];
    assert Run(s2, run[2..]) == Run(s3, []);
    assert Run(s1, run[1..]) == Run(s2, run[2..]);
    assert !Clean(s1, run[1..]);
  }

  /** They do not stay for good: an allocation of the lower piece, freed again, joins them. */
  lemma ReuseJoins()
    ensures Run([Block(16, 64, true), Block(96, 928, true)], [Malloc(64), Free(32)]) == [Block(16, 1008, true)]
  {
    var s0 := [Block(16, 64, true), Block(96, 928, true)];
    var s1 := [Block(16, 64, false), Block(96, 928, true)];
    var run := [Malloc(64), Free(32)];
    assert FirstFit(s0, 64, 0) == 0;
    assert Step(s0, run[0]).blocks == s1;
    assert IndexOf(s1[..1], 32) == 0;
    assert IndexOf(s1, 32) == 0;
    assert Step(s1, run[1]).blocks == [Block(16, 1008, true)];
    assert run[1..][0] == run[1] && run[1..][1..] == [];
    assert Run(s1, run[1..]) == Run([Block(16, 1008, true)], []);
  }
}
