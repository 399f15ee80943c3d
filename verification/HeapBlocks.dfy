/**
 The block list of the heap allocator as a sequence of values, in list order.

 Every routine of the allocator is written here as a function on such sequences; the class in
 Heap.dfy proves that the linked list in memory follows these functions step by step.
 */
module HeapBlocks {
  import opened Machine

  const HEADER: nat := 16
  const ALIGNMENT: nat := 16
  const SIZE_GUARD: nat := 0xFFFF_FFF0   // largest size whose rounding does not wrap

  datatype Block = Block(addr: nat, size: nat, free: bool) {
    function Payload(): nat { addr + HEADER }

    function End(): nat { addr + HEADER + size }
  }

  /** Rounding up to 16 in 32-bit arithmetic: it wraps to 0 above SIZE_GUARD. */
  function AlignUp(value: u32): (r: u32)
    ensures r % 16 == 0
    ensures value <= SIZE_GUARD ==> value <= r < value + ALIGNMENT
    ensures value > SIZE_GUARD ==> r == 0
  {
    (value + 15) % TWO32 / 16 * 16
  }

  lemma HeaderFieldsAligned(a: nat)
    requires a % 16 == 0
    ensures a % 4 == 0 && (a + 4) % 4 == 0 && (a + 8) % 4 == 0 && (a + 12) % 4 == 0
  {
    var q := 4 * (a / 16);
    assert a == 4 * q && a + 4 == 4 * (q + 1) && a + 8 == 4 * (q + 2) && a + 12 == 4 * (q + 3);
  }

  lemma SumAligned(a: nat, b: nat)
    requires a % 16 == 0 && b % 16 == 0
    ensures (a + b) % 16 == 0 && (a + HEADER) % 16 == 0 && (a + HEADER + b) % 16 == 0
  {
  }

  // ---------------------------------------------------------------- shape

  ghost predicate Adjacent(bs: seq<Block>, i: int)
    requires 0 < i < |bs|
  {
    bs[i].addr == bs[i-1].End()
  }

  ghost predicate SizeAligned(bs: seq<Block>, i: int)
    requires 0 <= i < |bs|
  {
    bs[i].size % 16 == 0
  }

  /** The blocks cover [lo, hi) exactly, in address order, with payload sizes in 16-byte units. */
  ghost predicate Tiles(bs: seq<Block>, lo: nat, hi: nat) {
    && |bs| > 0
    && bs[0].addr == lo
    && bs[|bs|-1].End() == hi
    && (forall i :: 0 < i < |bs| ==> Adjacent(bs, i))
    && (forall i :: 0 <= i < |bs| ==> SizeAligned(bs, i))
  }

  ghost predicate InHeader(bs: seq<Block>, k: int) {
    exists i :: 0 <= i < |bs| && bs[i].addr <= k < bs[i].addr + HEADER
  }

  lemma {:induction false} Ordered(bs: seq<Block>, lo: nat, hi: nat, i: nat, j: nat)
    requires Tiles(bs, lo, hi) && i < j < |bs|
    ensures bs[i].End() <= bs[j].addr
    decreases j
  {
    assert Adjacent(bs, j);
    if i < j - 1 {
      Ordered(bs, lo, hi, i, j - 1);
    }
  }

  lemma Within(bs: seq<Block>, lo: nat, hi: nat, i: nat)
    requires Tiles(bs, lo, hi) && i < |bs|
    ensures lo <= bs[i].addr && bs[i].End() <= hi
  {
    if 0 < i { Ordered(bs, lo, hi, 0, i); }
    if i < |bs| - 1 { Ordered(bs, lo, hi, i, |bs| - 1); }
  }

  lemma OrderedAll(bs: seq<Block>, lo: nat, hi: nat)
    requires Tiles(bs, lo, hi)
    ensures forall i, j :: 0 <= i < j < |bs| ==> bs[i].End() <= bs[j].addr
    ensures forall i :: 0 <= i < |bs| ==> lo <= bs[i].addr && bs[i].End() <= hi
  {
    forall i, j | 0 <= i < j < |bs| ensures bs[i].End() <= bs[j].addr {
      Ordered(bs, lo, hi, i, j);
    }
    forall i | 0 <= i < |bs| ensures lo <= bs[i].addr && bs[i].End() <= hi {
      Within(bs, lo, hi, i);
    }
  }

  lemma {:induction false} AddressesAligned(bs: seq<Block>, lo: nat, hi: nat, i: nat)
    requires Tiles(bs, lo, hi) && lo % 16 == 0 && i < |bs|
    ensures bs[i].addr % 16 == 0
  {
    if i > 0 {
      AddressesAligned(bs, lo, hi, i - 1);
      assert Adjacent(bs, i) && SizeAligned(bs, i - 1);
    }
  }

  // ---------------------------------------------------------------- list operations

  function SetFree(bs: seq<Block>, i: nat, free: bool): (r: seq<Block>)
    requires i < |bs|
  {
    bs[i := bs[i].(free := free)]
  }

  function SplitAt(bs: seq<Block>, i: nat, wanted: nat): (r: seq<Block>)
    requires i < |bs|
  {
    var b := bs[i];
    if b.size < wanted || b.size - wanted < HEADER + ALIGNMENT then bs
    else
      bs[..i]
      + [b.(size := wanted), Block(b.Payload() + wanted, b.size - wanted - HEADER, true)]
      + bs[i+1..]
  }

  predicate CanMerge(bs: seq<Block>, i: nat) {
    i + 1 < |bs| && bs[i+1].free
  }

  function MergeAt(bs: seq<Block>, i: nat): (r: seq<Block>)
    requires i < |bs|
  {
    if !CanMerge(bs, i) then bs
    else bs[..i] + [bs[i].(size := bs[i].size + HEADER + bs[i+1].size)] + bs[i+2..]
  }

  predicate Fits(b: Block, wanted: nat) {
    b.free && wanted <= b.size
  }

  /** Index of the first fitting block at or after `from`, or |bs|. */
  function FirstFit(bs: seq<Block>, wanted: nat, from: nat): (r: nat)
    requires from <= |bs|
    ensures from <= r <= |bs|
    ensures forall j :: from <= j < r ==> !Fits(bs[j], wanted)
    ensures r < |bs| ==> Fits(bs[r], wanted)
    decreases |bs| - from
  {
    if from == |bs| || Fits(bs[from], wanted) then from else FirstFit(bs, wanted, from + 1)
  }

  lemma {:induction false} FirstFitFound(bs: seq<Block>, wanted: nat, from: nat, i: nat)
    requires from <= i <= |bs|
    requires forall j :: from <= j < i ==> !Fits(bs[j], wanted)
    requires i < |bs| ==> Fits(bs[i], wanted)
    ensures FirstFit(bs, wanted, from) == i
  {
  }

  function Carve(bs: seq<Block>, i: nat, wanted: nat): (r: seq<Block>)
    requires i < |bs|
  {
    SetFree(SplitAt(bs, i, wanted), i, false)
  }

  /** Index of the block whose payload is `ptr`, or |bs|. */
  function IndexOf(bs: seq<Block>, ptr: nat): (r: nat)
    ensures r <= |bs|
    ensures r < |bs| ==> bs[r].Payload() == ptr
    ensures r == |bs| ==> forall j :: 0 <= j < |bs| ==> bs[j].Payload() != ptr
  {
    if |bs| == 0 then 0
    else if bs[|bs|-1].Payload() == ptr then |bs| - 1
    else
      var r := IndexOf(bs[..|bs|-1], ptr);
      if r == |bs| - 1 then |bs| else r
  }

  lemma IndexOfPayload(bs: seq<Block>, lo: nat, hi: nat, i: nat)
    requires Tiles(bs, lo, hi) && i < |bs|
    ensures IndexOf(bs, bs[i].Payload()) == i
  {
    OrderedAll(bs, lo, hi);
  }

  // ---------------------------------------------------------------- routines

  /** Outcome of an allocation: the new list, and the pointer returned (0 is null). */
  datatype Outcome = Outcome(blocks: seq<Block>, ptr: nat)

  function MallocOutcome(bs: seq<Block>, size: u32): (r: Outcome) {
    if size == 0 || size > SIZE_GUARD then Outcome(bs, 0)
    else
      var i := FirstFit(bs, AlignUp(size), 0);
      if i == |bs| then Outcome(bs, 0)
      else Outcome(Carve(bs, i, AlignUp(size)), bs[i].Payload())
  }

  /** Merges a freed block with its successor, then its predecessor with it. */
  function JoinAt(bs: seq<Block>, i: nat): (r: seq<Block>)
    requires i < |bs|
  {
    var merged := MergeAt(bs, i);
    if i > 0 && merged[i-1].free then MergeAt(merged, i - 1) else merged
  }

  function FreeAt(bs: seq<Block>, i: nat): (r: seq<Block>)
    requires i < |bs|
  {
    JoinAt(SetFree(bs, i, true), i)
  }

  function FreeOutcome(bs: seq<Block>, ptr: nat): (r: seq<Block>) {
    var i := IndexOf(bs, ptr);
    if i == |bs| || bs[i].free then bs else FreeAt(bs, i)
  }

  function CallocOutcome(bs: seq<Block>, count: u32, size: u32): (r: Outcome) {
    if count * size >= TWO32 then Outcome(bs, 0) else MallocOutcome(bs, count * size)
  }

  predicate GrowsInPlace(bs: seq<Block>, i: nat, wanted: nat)
    requires i < |bs|
  {
    CanMerge(bs, i) && wanted <= bs[i].size + HEADER + bs[i+1].size
  }

  function ReallocOutcome(bs: seq<Block>, ptr: nat, size: u32): (r: Outcome) {
    if ptr == 0 then MallocOutcome(bs, size)
    else if size == 0 then Outcome(FreeOutcome(bs, ptr), 0)
    else
      var i := IndexOf(bs, ptr);
      if i == |bs| || bs[i].free then Outcome(bs, 0)
      else
        var wanted := AlignUp(size);
        if wanted <= bs[i].size then Outcome(SplitAt(bs, i, wanted), ptr)
        else if GrowsInPlace(bs, i, wanted) then Outcome(SplitAt(MergeAt(bs, i), i, wanted), ptr)
        else
          var moved := MallocOutcome(bs, size);
          if moved.ptr == 0 then moved else Outcome(FreeOutcome(moved.blocks, ptr), moved.ptr)
  }

  // ---------------------------------------------------------------- tiling is kept

  lemma SplitTiles(bs: seq<Block>, lo: nat, hi: nat, i: nat, wanted: nat)
    requires Tiles(bs, lo, hi) && i < |bs| && wanted % 16 == 0
    ensures Tiles(SplitAt(bs, i, wanted), lo, hi)
  {
    var r := SplitAt(bs, i, wanted);
    if r != bs {
      forall k | 0 < k < |r| ensures Adjacent(r, k) {
        if k <= i { assert Adjacent(bs, k); }
        if k > i + 1 { assert Adjacent(bs, k - 1); }
      }
      assert SizeAligned(bs, i);
      forall k | 0 <= k < |r| ensures SizeAligned(r, k) {
        if k < i { assert SizeAligned(bs, k); }
        if k > i + 1 { assert SizeAligned(bs, k - 1); }
      }
    }
  }

  lemma MergeTiles(bs: seq<Block>, lo: nat, hi: nat, i: nat)
    requires Tiles(bs, lo, hi) && i < |bs|
    ensures Tiles(MergeAt(bs, i), lo, hi)
  {
    var r := MergeAt(bs, i);
    if r != bs {
      assert Adjacent(bs, i + 1);
      forall k | 0 < k < |r| ensures Adjacent(r, k) {
        if k <= i { assert Adjacent(bs, k); }
        if k > i { assert Adjacent(bs, k + 1); }
      }
      assert SizeAligned(bs, i) && SizeAligned(bs, i + 1);
      forall k | 0 <= k < |r| ensures SizeAligned(r, k) {
        if k < i { assert SizeAligned(bs, k); }
        if k > i { assert SizeAligned(bs, k + 1); }
      }
    }
  }

  lemma SetFreeTiles(bs: seq<Block>, lo: nat, hi: nat, i: nat, free: bool)
    requires Tiles(bs, lo, hi) && i < |bs|
    ensures Tiles(SetFree(bs, i, free), lo, hi)
  {
    var r := SetFree(bs, i, free);
    forall k | 0 < k < |r| ensures Adjacent(r, k) {
      assert Adjacent(bs, k);
    }
    forall k | 0 <= k < |r| ensures SizeAligned(r, k) {
      assert SizeAligned(bs, k);
    }
  }

  lemma MallocTiles(bs: seq<Block>, lo: nat, hi: nat, size: u32)
    requires Tiles(bs, lo, hi)
    ensures Tiles(MallocOutcome(bs, size).blocks, lo, hi)
  {
    var i := FirstFit(bs, AlignUp(size), 0);
    if 0 < size <= SIZE_GUARD && i < |bs| {
      SplitTiles(bs, lo, hi, i, AlignUp(size));
      SetFreeTiles(SplitAt(bs, i, AlignUp(size)), lo, hi, i, false);
    }
  }

  lemma FreeTiles(bs: seq<Block>, lo: nat, hi: nat, i: nat)
    requires Tiles(bs, lo, hi) && i < |bs|
    ensures Tiles(FreeAt(bs, i), lo, hi)
  {
    SetFreeTiles(bs, lo, hi, i, true);
    MergeTiles(SetFree(bs, i, true), lo, hi, i);
    if i > 0 {
      MergeTiles(MergeAt(SetFree(bs, i, true), i), lo, hi, i - 1);
    }
  }

  lemma FreeOutcomeTiles(bs: seq<Block>, lo: nat, hi: nat, ptr: nat)
    requires Tiles(bs, lo, hi)
    ensures Tiles(FreeOutcome(bs, ptr), lo, hi)
  {
    if IndexOf(bs, ptr) < |bs| {
      FreeTiles(bs, lo, hi, IndexOf(bs, ptr));
    }
  }

  lemma ReallocTiles(bs: seq<Block>, lo: nat, hi: nat, ptr: nat, size: u32)
    requires Tiles(bs, lo, hi)
    ensures Tiles(ReallocOutcome(bs, ptr, size).blocks, lo, hi)
  {
    var i, wanted := IndexOf(bs, ptr), AlignUp(size);
    if ptr == 0 {
      MallocTiles(bs, lo, hi, size);
    } else if size == 0 || i == |bs| || bs[i].free {
      FreeOutcomeTiles(bs, lo, hi, ptr);
    } else if wanted <= bs[i].size {
      SplitTiles(bs, lo, hi, i, wanted);
    } else if GrowsInPlace(bs, i, wanted) {
      MergeTiles(bs, lo, hi, i);
      SplitTiles(MergeAt(bs, i), lo, hi, i, wanted);
    } else {
      MallocTiles(bs, lo, hi, size);
      FreeOutcomeTiles(MallocOutcome(bs, size).blocks, lo, hi, ptr);
    }
  }

  // ---------------------------------------------------------------- counting

  function FreeBytes(bs: seq<Block>): (n: nat) {
    if |bs| == 0 then 0
    else FreeBytes(bs[..|bs|-1]) + (if bs[|bs|-1].free then bs[|bs|-1].size else 0)
  }

  function LiveBytes(bs: seq<Block>): (n: nat) {
    if |bs| == 0 then 0
    else LiveBytes(bs[..|bs|-1]) + (if bs[|bs|-1].free then 0 else bs[|bs|-1].size)
  }

  /** Payload bytes and headers together fill the region. */
  lemma {:induction false} BytesConserved(bs: seq<Block>, lo: nat, hi: nat, n: nat)
    requires Tiles(bs, lo, hi) && 0 < n <= |bs|
    ensures FreeBytes(bs[..n]) + LiveBytes(bs[..n]) + HEADER * n == bs[n-1].End() - lo
  {
    assert bs[..n][..n-1] == bs[..n-1];
    if n > 1 {
      BytesConserved(bs, lo, hi, n - 1);
      assert Adjacent(bs, n - 1);
    }
  }

  /** `largest` is the size of the largest free block, or 0 if no block is free. */
  ghost predicate IsLargestFree(bs: seq<Block>, largest: nat) {
    && (forall j :: 0 <= j < |bs| && bs[j].free ==> bs[j].size <= largest)
    && (largest == 0 || exists j :: 0 <= j < |bs| && bs[j].free && bs[j].size == largest)
  }

  function LiveCount(bs: seq<Block>): (n: nat) {
    if |bs| == 0 then 0 else (if bs[0].free then 0 else 1) + LiveCount(bs[1..])
  }

  lemma {:induction false} LiveCountAppend(a: seq<Block>, b: seq<Block>)
    ensures LiveCount(a + b) == LiveCount(a) + LiveCount(b)
  {
    if |a| == 0 {
      assert a + b == b;
    } else {
      LiveCountAppend(a[1..], b);
      assert (a + b)[1..] == a[1..] + b;
    }
  }

  lemma LiveCountAround(bs: seq<Block>, i: nat)
    requires i < |bs|
    ensures LiveCount(bs) == LiveCount(bs[..i]) + (if bs[i].free then 0 else 1) + LiveCount(bs[i+1..])
  {
    assert bs == bs[..i] + ([bs[i]] + bs[i+1..]);
    LiveCountAppend(bs[..i], [bs[i]] + bs[i+1..]);
    LiveCountAppend([bs[i]], bs[i+1..]);
  }

  lemma LiveCountSetFree(bs: seq<Block>, i: nat, free: bool)
    requires i < |bs|
    ensures LiveCount(SetFree(bs, i, free)) ==
            LiveCount(bs) - (if bs[i].free then 0 else 1) + (if free then 0 else 1)
  {
    var r := SetFree(bs, i, free);
    LiveCountAround(bs, i);
    LiveCountAround(r, i);
    assert r[..i] == bs[..i] && r[i+1..] == bs[i+1..];
  }

  lemma LiveCountSplit(bs: seq<Block>, i: nat, wanted: nat)
    requires i < |bs|
    ensures LiveCount(SplitAt(bs, i, wanted)) == LiveCount(bs)
  {
    var r := SplitAt(bs, i, wanted);
    if r != bs {
      LiveCountAround(bs, i);
      LiveCountAround(r, i);
      LiveCountAround(r[i+1..], 0);
      assert r[..i] == bs[..i] && r[i+1..][1..] == bs[i+1..];
    }
  }

  lemma LiveCountMerge(bs: seq<Block>, i: nat)
    requires i < |bs|
    ensures LiveCount(MergeAt(bs, i)) == LiveCount(bs)
  {
    var r := MergeAt(bs, i);
    if r != bs {
      LiveCountAround(bs, i);
      LiveCountAround(r, i);
      LiveCountAround(bs[i+1..], 0);
      assert r[..i] == bs[..i] && r[i+1..] == bs[i+1..][1..];
    }
  }

  lemma {:induction false} LiveCountBound(bs: seq<Block>)
    ensures LiveCount(bs) <= |bs|
  {
    if |bs| > 0 {
      LiveCountBound(bs[1..]);
    }
  }

  lemma {:induction false} BlockCountBound(bs: seq<Block>, lo: nat, hi: nat, i: nat)
    requires Tiles(bs, lo, hi) && i < |bs|
    ensures lo + HEADER * i <= bs[i].addr
  {
    if i > 0 {
      BlockCountBound(bs, lo, hi, i - 1);
      assert Adjacent(bs, i);
    }
  }

  lemma LiveCountFits(bs: seq<Block>, lo: nat, hi: nat)
    requires Tiles(bs, lo, hi)
    ensures HEADER * LiveCount(bs) <= hi - lo
  {
    LiveCountBound(bs);
    BlockCountBound(bs, lo, hi, |bs| - 1);
  }

  /** Carving out of a free block makes one more live block, at the same address. */
  lemma CarveSteps(bs: seq<Block>, i: nat, wanted: nat)
    requires i < |bs| && Fits(bs[i], wanted)
    ensures var r := SplitAt(bs, i, wanted); i < |r| && r[i].addr == bs[i].addr && r[i].free && wanted <= r[i].size
    ensures LiveCount(Carve(bs, i, wanted)) == LiveCount(bs) + 1
  {
    LiveCountSplit(bs, i, wanted);
    LiveCountSetFree(SplitAt(bs, i, wanted), i, false);
  }

  lemma FreeCount(bs: seq<Block>, i: nat)
    requires i < |bs| && !bs[i].free
    ensures LiveCount(bs) > 0 && LiveCount(FreeAt(bs, i)) == LiveCount(bs) - 1
  {
    var bs1 := SetFree(bs, i, true);
    LiveCountAround(bs, i);
    LiveCountSetFree(bs, i, true);
    LiveCountMerge(bs1, i);
    if i > 0 {
      LiveCountMerge(MergeAt(bs1, i), i - 1);
    }
  }

  lemma LargestGrows(bs: seq<Block>, i: nat, largest: nat)
    requires i < |bs| && bs[i].free && IsLargestFree(bs[..i], largest)
    ensures IsLargestFree(bs[..i+1], Max(largest, bs[i].size))
  {
    var r := bs[..i+1];
    assert r[i] == bs[i];
    if bs[i].size <= largest && largest != 0 {
      var j :| 0 <= j < i && bs[..i][j].free && bs[..i][j].size == largest;
      assert r[j] == bs[..i][j];
    }
    forall j | 0 <= j < |r| && r[j].free ensures r[j].size <= Max(largest, bs[i].size) {
      if j < i { assert r[j] == bs[..i][j]; }
    }
  }

  lemma IndexOfMember(bs: seq<Block>, ptr: nat, b: Block)
    requires b in bs && b.Payload() == ptr
    ensures IndexOf(bs, ptr) < |bs|
  {
  }

  lemma GrownBlock(bs: seq<Block>, i: nat, wanted: nat)
    requires i < |bs| && !bs[i].free && GrowsInPlace(bs, i, wanted)
    ensures var r := SplitAt(MergeAt(bs, i), i, wanted);
            && i < |r| && r[i].addr == bs[i].addr && wanted <= r[i].size && !r[i].free
            && SetFree(r, i, false) == r
  {
  }
}
