/** Sequences of calls on the heap object: its block list goes through the runs that the theorems are about. */
module HeapCalls {
  import opened Machine
  import opened HeapBlocks
  import opened HeapContents
  import opened HeapRuns
  import H = Heap

  /** The pointers a call passes were null, misaligned, or handed out by the heap. */
  predicate KnownAt(bs: seq<Block>, op: Op) {
    && (op.Free? ==> op.ptr < TWO32 && PassedBack(bs, op.ptr))
    && (op.Realloc? ==> op.old_ptr < TWO32 && PassedBack(bs, op.old_ptr))
  }

  predicate PassedBack(bs: seq<Block>, ptr: nat) {
    ptr == 0 || ptr % 16 != 0 || bs == [] || IndexOf(bs, ptr) < |bs|
  }

  predicate AllKnown(bs: seq<Block>, ops: seq<Op>)
    decreases ops
  {
    |ops| == 0 || (KnownAt(bs, ops[0]) && AllKnown(Step(bs, ops[0]).blocks, ops[1..]))
  }

  lemma PassedBackIsKnown(heap: H.Heap, ptr: nat)
    requires heap.Valid() && PassedBack(heap.blocks, ptr)
    ensures heap.Known(ptr)
  {
  }

  /** The call does not end or move the block behind this pointer. */
  predicate Spares(op: Op, ptr: nat) {
    (op.Free? ==> op.ptr != ptr) && (op.Realloc? ==> op.old_ptr != ptr)
  }

  predicate AllSpare(ops: seq<Op>, ptr: nat) {
    forall k :: 0 <= k < |ops| ==> Spares(ops[k], ptr)
  }

  /** The block is still there, live and of the same size, and each of its bytes is as it was. */
  ghost predicate Intact(m: seq<byte>, m': seq<byte>, bs': seq<Block>, b: Block) {
    && b in bs' && b.End() <= |m| && b.End() <= |m'|
    && forall k :: b.Payload() <= k < b.End() ==> m'[k] == m[k]
  }

  lemma KeptIsIntact(m: seq<byte>, m': seq<byte>, bs: seq<Block>, bs': seq<Block>, except: nat, lo: nat, hi: nat)
    requires LiveKept(m, m', bs, bs', except, lo, hi)
    ensures forall b :: b in bs && !b.free && b.Payload() != except ==> Intact(m, m', bs', b)
  {
    forall b | b in bs && !b.free && b.Payload() != except ensures Intact(m, m', bs', b) {
      assert SamePayload(m, m', b);
      forall k | b.Payload() <= k < b.End() ensures m'[k] == m[k] {
        assert m'[b.Payload()..b.End()][k - b.Payload()] == m[b.Payload()..b.End()][k - b.Payload()];
      }
    }
  }

  /** What a call does to the object: the list's step, no byte of a block it spares, and the bytes a realloc moves. */
  method Perform(heap: H.Heap, op: Op) returns (ptr: u32)
    requires heap.Valid() && KnownAt(heap.blocks, op)
    modifies heap.mem, heap.mem.bytes, heap`blocks, heap`active
    ensures heap.Valid() && Outcome(heap.blocks, ptr) == Step(old(heap.blocks), op)
    ensures forall b :: b in old(heap.blocks) && !b.free && Spares(op, b.Payload()) ==>
              Intact(old(heap.mem.bytes[..]), heap.mem.bytes[..], heap.blocks, b)
    ensures op.Realloc? && ptr != 0 && op.old_ptr != 0 && op.new_size <= SIZE_GUARD ==>
              var i := IndexOf(old(heap.blocks), op.old_ptr);
              && i < |old(heap.blocks)|
              && var n := Min(old(heap.blocks)[i].size, op.new_size);
                 && op.old_ptr + n <= heap.mem.bytes.Length && ptr + n <= heap.mem.bytes.Length
                 && heap.mem.bytes[ptr..ptr + n] == old(heap.mem.bytes[..])[op.old_ptr..op.old_ptr + n]
  {
    ghost var m, bs := heap.mem.bytes[..], heap.blocks;
    ghost var except: nat := match op case Free(p) => p case Realloc(p, _) => p case _ => 0;
    ptr := Dispatch(heap, op, except);
    KeptIsIntact(m, heap.mem.bytes[..], bs, heap.blocks, except, heap.first, heap.end);
  }

  method Dispatch(heap: H.Heap, op: Op, ghost except: nat) returns (ptr: u32)
    requires heap.Valid() && KnownAt(heap.blocks, op)
    requires except == match op case Free(p) => p case Realloc(p, _) => p case _ => 0
    modifies heap.mem, heap.mem.bytes, heap`blocks, heap`active
    ensures heap.Valid() && Outcome(heap.blocks, ptr) == Step(old(heap.blocks), op)
    ensures LiveKept(old(heap.mem.bytes[..]), heap.mem.bytes[..], old(heap.blocks), heap.blocks, except,
                     heap.first, heap.end)
    ensures op.Realloc? && ptr != 0 && op.old_ptr != 0 && op.new_size <= SIZE_GUARD ==>
              var i := IndexOf(old(heap.blocks), op.old_ptr);
              && i < |old(heap.blocks)|
              && Copied(old(heap.mem.bytes[..]), heap.mem.bytes[..], op.old_ptr, ptr,
                        Min(old(heap.blocks)[i].size, op.new_size))
  {
    match op {
      case Malloc(size) => ptr := heap.Malloc(size);
      case Calloc(count, item) => ptr := heap.Calloc(count, item);
      case Free(p) =>
        PassedBackIsKnown(heap, p);
        heap.Free(p);
        ptr := 0;
      case Realloc(p, size) =>
        PassedBackIsKnown(heap, p);
        ptr := heap.Realloc(p, size);
    }
  }

  /** Any sequence of calls takes the object's block list through that run, and no byte of a block they all spare. */
  method PerformAll(heap: H.Heap, ops: seq<Op>)
    requires heap.Valid() && AllKnown(heap.blocks, ops)
    modifies heap.mem, heap.mem.bytes, heap`blocks, heap`active
    ensures heap.Valid() && heap.blocks == Run(old(heap.blocks), ops)
    ensures forall b :: b in old(heap.blocks) && !b.free && AllSpare(ops, b.Payload()) ==>
              Intact(old(heap.mem.bytes[..]), heap.mem.bytes[..], heap.blocks, b)
    decreases |ops|
  {
    if |ops| > 0 {
      ghost var m, bs := heap.mem.bytes[..], heap.blocks;
      var _ := Perform(heap, ops[0]);
      ghost var m1 := heap.mem.bytes[..];
      PerformAll(heap, ops[1..]);
      forall b | b in bs && !b.free && AllSpare(ops, b.Payload())
        ensures Intact(m, heap.mem.bytes[..], heap.blocks, b)
      {
        assert Spares(ops[0], b.Payload()) && Intact(m, m1, Step(bs, ops[0]).blocks, b);
        assert AllSpare(ops[1..], b.Payload());
      }
    } else {
      LiveKeptReflexive(heap.mem.bytes[..], heap.blocks, 0, heap.first, heap.end);
      KeptIsIntact(heap.mem.bytes[..], heap.mem.bytes[..], heap.blocks, heap.blocks, 0, heap.first, heap.end);
    }
  }

  method Through(heap: H.Heap, ops: seq<Op>)
    requires heap.Valid() && AllKnown(heap.blocks, ops)
    modifies heap.mem, heap.mem.bytes, heap`blocks, heap`active
    ensures heap.Valid() && heap.blocks == Run(old(heap.blocks), ops)
  {
    PerformAll(heap, ops);
  }

  lemma {:induction false} FreesKnown(bs: seq<Block>, ptrs: seq<nat>)
    requires AllLive(bs, ptrs)
    ensures AllKnown(bs, Frees(ptrs))
    decreases ptrs
  {
    if |ptrs| > 0 {
      FreesKnown(FreeOutcome(bs, ptrs[0]), ptrs[1..]);
      assert Frees(ptrs)[1..] == Frees(ptrs[1..]);
    }
  }

  /** Each pointer is live when its turn comes to be freed. */
  predicate AllLive(bs: seq<Block>, ptrs: seq<nat>)
    decreases ptrs
  {
    |ptrs| == 0 || (ptrs[0] < TWO32 && IsLive(bs, ptrs[0]) && AllLive(FreeOutcome(bs, ptrs[0]), ptrs[1..]))
  }

  /**
   A client of a new heap that makes any calls and then frees all it holds: the object's list is the one free block it
   began with, exactly when the calls left no two free neighbours.
   */
  method UseAndFree(heap: H.Heap, ops: seq<Op>, ptrs: seq<nat>)
    requires heap.Valid() && heap.ready && heap.blocks == [Block(heap.first, heap.end - heap.first - HEADER, true)]
    requires heap.end % 16 == 0 && heap.first + HEADER <= heap.end
    requires AllKnown(heap.blocks, ops)
    requires AllLive(Run(heap.blocks, ops), ptrs) && CoversLive(Run(heap.blocks, ops), ptrs)
    modifies heap.mem, heap.mem.bytes, heap`blocks, heap`active
    ensures heap.Valid()
    ensures heap.blocks == old(heap.blocks) <==> Coalesced(Run(old(heap.blocks), ops))
  {
    ghost var bs := heap.blocks;
    FreedExactly(bs, heap.first, heap.end, ops, ptrs);
    Through(heap, ops);
    FreesKnown(Run(bs, ops), ptrs);
    Through(heap, Frees(ptrs));
  }
}
