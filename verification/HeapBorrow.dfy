/** An allocation that is freed before anything else happens leaves no trace. */
module HeapBorrow {
  import opened Machine
  import opened HeapBlocks
  import opened HeapImage
  import opened HeapContents
  import opened HeapRuns

  /** The live blocks of both lists are the same, sizes included. */
  ghost predicate SameLive(bs: seq<Block>, bs': seq<Block>) {
    forall b: Block :: !b.free ==> (b in bs' <==> b in bs)
  }

  /** An allocation adds one live block and no other. */
  lemma MallocOnlyAdds(bs: seq<Block>, size: u32, b: Block)
    requires b in MallocOutcome(bs, size).blocks && !b.free
    ensures b in bs || b.Payload() == MallocOutcome(bs, size).ptr
  {
    var i, wanted := FirstFit(bs, AlignUp(size), 0), AlignUp(size);
    if 0 < size <= SIZE_GUARD && i < |bs| {
      var r := Carve(bs, i, wanted);
      var j :| 0 <= j < |r| && r[j] == b;
      assert j == i || b in bs by {
        if |r| == |bs| {
          assert j == i || r[j] == bs[j];
        } else {
          assert j < i ==> r[j] == bs[j];
          assert j > i + 1 ==> r[j] == bs[j-1];
        }
      }
    }
  }

  /** Allocating and freeing changes neither the set of live blocks nor any of their bytes. */
  lemma BorrowKeepsLive(bs: seq<Block>, lo: nat, hi: nat, size: u32)
    requires Tiles(bs, lo, hi)
    ensures var r := MallocOutcome(bs, size);
            r.ptr != 0 ==> SameLive(bs, FreeOutcome(r.blocks, r.ptr))
  {
    var r := MallocOutcome(bs, size);
    if r.ptr != 0 {
      MallocFresh(bs, lo, hi, size);
      MallocTiles(bs, lo, hi, size);
      forall b: Block | !b.free ensures b in FreeOutcome(r.blocks, r.ptr) <==> b in bs {
        if b in FreeOutcome(r.blocks, r.ptr) {
          FreeOnlyRemoves(r.blocks, lo, hi, r.ptr, b);
          MallocOnlyAdds(bs, size, b);
        }
        if b in bs {
          FreeOutcomeKeeps(r.blocks, r.ptr, b);
        }
      }
    }
  }

  /** Splitting a free block with no free successor and merging it again is no change. */
  lemma SplitMerge(bs: seq<Block>, i: nat, wanted: nat)
    requires i < |bs| && Fits(bs[i], wanted) && (i + 1 < |bs| ==> !bs[i+1].free)
    ensures MergeAt(SplitAt(bs, i, wanted), i) == bs
  {
    var r := SplitAt(bs, i, wanted);
    if |r| != |bs| {
      assert r[..i] == bs[..i] && r[i+2..] == bs[i+1..];
      assert bs == bs[..i] + [bs[i]] + bs[i+1..];
    }
  }

  lemma CarveFree(bs: seq<Block>, i: nat, wanted: nat)
    requires i < |bs| && Fits(bs[i], wanted)
    requires (i + 1 < |bs| ==> !bs[i+1].free) && (i > 0 ==> !bs[i-1].free)
    ensures FreeAt(Carve(bs, i, wanted), i) == bs
  {
    var r := SplitAt(bs, i, wanted);
    assert SetFree(Carve(bs, i, wanted), i, true) == r;
    SplitMerge(bs, i, wanted);
  }

  /** Without neighbouring free blocks, allocating and freeing restores the list itself. */
  lemma BorrowRestores(bs: seq<Block>, lo: nat, hi: nat, size: u32)
    requires Tiles(bs, lo, hi) && Coalesced(bs)
    ensures var r := MallocOutcome(bs, size);
            r.ptr != 0 ==> FreeOutcome(r.blocks, r.ptr) == bs
  {
    var r, i, wanted := MallocOutcome(bs, size), FirstFit(bs, AlignUp(size), 0), AlignUp(size);
    if r.ptr != 0 {
      MallocTiles(bs, lo, hi, size);
      CarvedAt(bs, i, wanted);
      IndexOfPayload(r.blocks, lo, hi, i);
      assert i > 0 ==> !FreePair(bs, i);
      assert i + 1 < |bs| ==> !FreePair(bs, i + 1);
      CarveFree(bs, i, wanted);
    }
  }

  lemma CarvedAt(bs: seq<Block>, i: nat, wanted: nat)
    requires i < |bs| && Fits(bs[i], wanted)
    ensures var r := Carve(bs, i, wanted); i < |r| && r[i].Payload() == bs[i].Payload() && !r[i].free
  {
  }

  /** The same live blocks with the same bytes; and the very same list, if no two free blocks were neighbours. */
  ghost predicate Untouched(m: seq<byte>, m': seq<byte>, bs: seq<Block>, bs': seq<Block>, lo: nat, hi: nat) {
    && SameLive(bs, bs') && LiveKept(m, m', bs, bs', 0, lo, hi)
    && (Coalesced(bs) ==> bs' == bs)
  }

  /** Allocate, store into the new block only, free: nothing a client can see has changed. */
  lemma BorrowUntouched(m0: seq<byte>, m1: seq<byte>, m2: seq<byte>, m3: seq<byte>,
                        bs: seq<Block>, bs1: seq<Block>, bs2: seq<Block>, p: nat, lo: nat, hi: nat, size: u32)
    requires Tiles(bs, lo, hi) && MallocOutcome(bs, size) == Outcome(bs1, p) && p != 0 && bs2 == FreeOutcome(bs1, p)
    requires LiveKept(m0, m1, bs, bs1, 0, lo, hi)
    requires LiveKept(m1, m2, bs1, bs1, p, lo, hi) && LiveKept(m2, m3, bs1, bs2, p, lo, hi)
    ensures Untouched(m0, m3, bs, bs2, lo, hi)
  {
    MallocFresh(bs, lo, hi, size);
    BorrowKeepsLive(bs, lo, hi, size);
    LiveKeptTransitive(m1, m2, m3, bs1, bs1, bs2, p, p, lo, hi);
    BorrowedKept(m0, m1, m3, bs, bs1, bs2, p, lo, hi);
    if Coalesced(bs) {
      BorrowRestores(bs, lo, hi, size);
    }
  }

  lemma BorrowedKept(m0: seq<byte>, m1: seq<byte>, m3: seq<byte>,
                     bs: seq<Block>, bs1: seq<Block>, bs2: seq<Block>, p: nat, lo: nat, hi: nat)
    requires LiveKept(m0, m1, bs, bs1, 0, lo, hi) && LiveKept(m1, m3, bs1, bs2, p, lo, hi)
    requires forall b :: b in bs && !b.free ==> b.Payload() != p
    ensures LiveKept(m0, m3, bs, bs2, 0, lo, hi)
  {
    forall b | b in bs && !b.free && b.Payload() != 0 ensures b in bs2 && SamePayload(m0, m3, b) {
      assert SamePayload(m0, m1, b) && SamePayload(m1, m3, b);
    }
  }
}
