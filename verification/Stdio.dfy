/** Formatted output to a stream: measure, find a buffer, format, and write it all. */
module Stdio {
  import opened Machine
  import opened ByteMemory
  import opened HeapBlocks
  import opened HeapContents
  import opened HeapBorrow
  import D = DebugLog
  import H = Heap
  import opened FormatText
  import opened Format
  import opened FormatLaws

  const STACK_BUFFER: u32 := 256

  /**
   A stream and its write callback. The callback is the debug log, if the stream has one, and otherwise anything
   that answers each request as it likes.
   */
  class Stream {
    const attached: bool
    const respond: (nat, nat) -> int   // the answer to the n-th request, of the given size
    const log: D.Log?
    const serial: nat -> int           // what the log's serial port answers to the n-th request
    var calls: nat
    ghost var delivered: seq<byte>     // everything the callback has accepted

    constructor (attached: bool, respond: (nat, nat) -> int, log: D.Log?, serial: nat -> int)
      ensures this.attached == attached && this.respond == respond && this.log == log && this.serial == serial
      ensures delivered == []
    {
      this.attached, this.respond, this.log, this.serial := attached, respond, log, serial;
      calls, delivered := 0, [];
    }

    ghost function Footprint(): (r: set<object>)
      ensures this in r && (log != null ==> log in r && log.ring in r)
    {
      {this} + if log == null then {} else {log, log.ring}
    }

    ghost predicate Valid()
      reads Footprint()
    {
      log != null ==> log.Valid()
    }

    /** Does the callback accept between one byte and all of them, whenever it is asked? The log always does. */
    ghost predicate Accepting() {
      attached && (log != null || forall call: nat, size: nat :: size > 0 ==> 0 < respond(call, size) <= size)
    }

    method Write(data: seq<byte>) returns (result: int)
      requires Valid()
      modifies Footprint()
      ensures Valid()
      ensures 0 < result <= |data| ==> delivered == old(delivered) + data[..result]
      ensures !(0 < result <= |data|) ==> delivered == old(delivered)
      ensures Accepting() && data != [] ==> 0 < result <= |data|
      ensures log != null && |data| <= INT_MAX ==> result == |data| && log.log == old(log.log) + data
    {
      if log != null {
        result := log.WriteRaw(Chars(data), serial(calls));
      } else {
        result := respond(calls, |data|);
      }
      if 0 < result <= |data| {
        delivered := delivered + data[..result];
      }
      calls := calls + 1;
    }
  }

  /** What a stream has accepted of `text` when a call ends with `result`. */
  ghost predicate Accepted(before: seq<byte>, after: seq<byte>, text: seq<byte>, result: int) {
    if result == -1 then exists n :: 0 <= n <= |text| && after == before + text[..n]
    else result == Min(|text|, INT_MAX) && after == before + text
  }

  /** A stream on the log appends to the log what it delivers. */
  twostate predicate Logged(stream: Stream, text: seq<byte>)
    reads stream.Footprint()
  {
    stream.log != null && stream.attached ==> stream.log.log == old(stream.log.log) + text
  }

  method WriteAll(stream: Stream?, data: seq<byte>) returns (result: int)
    requires |data| < TWO32 && (stream != null ==> stream.Valid())
    modifies if stream == null then {} else stream.Footprint()
    ensures stream == null ==> result == -1
    ensures stream != null ==> stream.Valid() && Accepted(old(stream.delivered), stream.delivered, data, result)
    ensures stream != null && stream.Accepting() ==> result != -1
    ensures stream != null && |data| <= INT_MAX ==> Logged(stream, data)
  {
    if stream == null || !stream.attached {
      assert stream != null ==> stream.delivered == old(stream.delivered) + data[..0];
      return -1;
    }
    var written := 0;
    while written < |data|
      invariant 0 <= written <= |data| && stream.Valid()
      invariant stream.delivered == old(stream.delivered) + data[..written]
      invariant |data| <= INT_MAX ==> Logged(stream, data[..written])
    {
      var accepted := stream.Write(data[written..]);
      if accepted <= 0 {
        return -1;
      }
      if accepted > |data| - written {
        return -1;
      }
      assert data[..written] + data[written..][..accepted] == data[..written + accepted];
      assert |data| <= INT_MAX && stream.log != null ==> data[..written] + data[written..] == data;
      written := written + accepted;
    }
    assert data[..written] == data;
    if written > INT_MAX {
      return INT_MAX;
    }
    return written;
  }

  method Puts(stream: Stream?, text: CharPtr) returns (result: int)
    requires text.Chars? ==> CString(text.bytes) && |text.bytes| < TWO32
    requires stream != null ==> stream.Valid()
    modifies if stream == null then {} else stream.Footprint()
    ensures stream != null ==> stream.Valid()
    ensures text.Null? || stream == null ==> result == -1
    ensures text.Chars? && stream != null ==>
              if result == -1
              then exists n :: 0 <= n <= |text.bytes| + 1
                               && stream.delivered == old(stream.delivered) + (text.bytes + [10])[..n]
              else result == Min(|text.bytes| + 1, INT_MAX)
                   && stream.delivered == old(stream.delivered) + text.bytes + [10]
    ensures text.Chars? && stream != null && stream.Accepting() ==> result != -1
    ensures text.Chars? && stream != null && |text.bytes| <= INT_MAX ==> Logged(stream, text.bytes + [10])
  {
    if text.Null? {
      return -1;
    }
    var length := |text.bytes|;
    ghost var line := text.bytes + [10];
    var body := WriteAll(stream, text.bytes);
    assert forall n :: 0 <= n <= length ==> line[..n] == text.bytes[..n];
    if body < 0 {
      return -1;
    }
    var end := WriteAll(stream, [10]);
    if end < 0 {
      assert [10][..0] == [] && text.bytes + [] == line[..length];
      assert [10][..1] == [10] && text.bytes + [10] == line[..length + 1];
      return -1;
    }
    if length >= INT_MAX {
      return INT_MAX;
    }
    return length + 1;
  }

  /** The part of the text that can be delivered: an `int` counts it. */
  function Deliverable(text: seq<byte>): (r: seq<byte>) {
    text[..Min(|text|, INT_MAX)]
  }

  /** Formatting into the heap block just allocated for it. */
  method FormatInHeap(heap: H.Heap, ptr: u32, capacity: u32, format: seq<byte>, args: seq<Arg>, ghost b: Block)
    returns (formatted: u32)
    requires WellFormed(format, args) && |Render(format, args)| < TWO32
    requires heap.Valid() && heap.ready && b in heap.blocks && b.Payload() == ptr && capacity <= b.size
    requires b.End() <= heap.mem.bytes.Length && capacity == Min(|Render(format, args)|, INT_MAX) + 1
    modifies heap.mem, heap.mem.bytes
    ensures heap.Valid() && formatted == Min(|Render(format, args)|, INT_MAX)
    ensures heap.mem.bytes[ptr..ptr + formatted] == Deliverable(Render(format, args))
    ensures LiveKept(old(heap.mem.bytes[..]), heap.mem.bytes[..], heap.blocks, heap.blocks, ptr, heap.first, heap.end)
  {
    ghost var before, text := heap.mem.bytes[..], Render(format, args);
    formatted := Vsnprintf(heap.mem.bytes, ptr, capacity, format, args);
    ghost var after := heap.mem.bytes[..];
    assert heap.mem.words == Words(before);
    assert Stored(|text|, capacity) == formatted;
    heap.ClientWrote(before, b);
    forall k | 0 <= k < formatted ensures after[ptr + k] == text[k] {
    }
    assert heap.mem.bytes[ptr..ptr + formatted] == Deliverable(text);
  }

  /** Formatting into a buffer on the stack. */
  method FormatOnStack(capacity: u32, format: seq<byte>, args: seq<Arg>) returns (formatted: u32, buffer: array<byte>)
    requires WellFormed(format, args) && capacity == |Render(format, args)| + 1 <= STACK_BUFFER
    ensures fresh(buffer) && formatted == |Render(format, args)| <= buffer.Length
    ensures buffer[..formatted] == Render(format, args)
  {
    buffer := new byte[STACK_BUFFER];
    ghost var before := buffer[..];
    formatted := Vsnprintf(buffer, 0, capacity, format, args);
    MeasuredFits(before, buffer[..], 0, Render(format, args));
  }

  /** The stream is in order, and its log does not lie in the heap's memory. */
  ghost predicate Apart(heap: H.Heap, stream: Stream?)
    reads if stream == null then {} else stream.Footprint()
  {
    stream != null ==> stream.Valid() && (stream.log != null ==> stream.log.ring != heap.mem.bytes)
  }

  /** The path through the heap: allocate, format, write, free. */
  method PrintThroughHeap(heap: H.Heap, stream: Stream?, capacity: u32, format: seq<byte>, args: seq<Arg>)
    returns (result: int)
    requires heap.Valid() && WellFormed(format, args) && |Render(format, args)| < TWO32 && stream != null
    requires capacity == Min(|Render(format, args)|, INT_MAX) + 1
    requires Apart(heap, stream)
    modifies if stream == null then {} else stream.Footprint()
    modifies heap.mem, heap.mem.bytes, heap`blocks, heap`active
    ensures heap.Valid() && stream.Valid()
    ensures Untouched(old(heap.mem.bytes[..]), heap.mem.bytes[..], old(heap.blocks), heap.blocks, heap.first, heap.end)
    ensures Accepted(old(stream.delivered), stream.delivered, Deliverable(Render(format, args)), result)
    ensures stream.Accepting() && MallocOutcome(old(heap.blocks), capacity).ptr != 0 ==>
              result != -1 && Logged(stream, Deliverable(Render(format, args)))
  {
    ghost var bs, m, text := heap.blocks, heap.mem.bytes[..], Deliverable(Render(format, args));
    ghost var lo, hi := heap.first, heap.end;
    var ptr := heap.Malloc(capacity);
    if ptr == 0 {
      assert stream.delivered == old(stream.delivered) + text[..0];
      return -1;
    }
    result := PrintAndRelease(heap, stream, ptr, capacity, format, args, bs, m);
  }

  /** After the allocation: `bs` and `m` are the block list and the memory before it. */
  method PrintAndRelease(heap: H.Heap, stream: Stream, ptr: u32, capacity: u32, format: seq<byte>, args: seq<Arg>,
                         ghost bs: seq<Block>, ghost m: seq<byte>) returns (result: int)
    requires WellFormed(format, args) && |Render(format, args)| < TWO32 && Apart(heap, stream)
    requires capacity == Min(|Render(format, args)|, INT_MAX) + 1
    requires heap.Valid() && heap.ready && Tiles(bs, heap.first, heap.end) && ptr != 0
    requires MallocOutcome(bs, capacity) == Outcome(heap.blocks, ptr)
    requires LiveKept(m, heap.mem.bytes[..], bs, heap.blocks, 0, heap.first, heap.end)
    modifies stream.Footprint(), heap.mem, heap.mem.bytes, heap`blocks, heap`active
    ensures heap.Valid() && stream.Valid()
    ensures Untouched(m, heap.mem.bytes[..], bs, heap.blocks, heap.first, heap.end)
    ensures Accepted(old(stream.delivered), stream.delivered, Deliverable(Render(format, args)), result)
    ensures stream.Accepting() ==> result != -1 && Logged(stream, Deliverable(Render(format, args)))
  {
    ghost var lo, hi, bs1, m1 := heap.first, heap.end, heap.blocks, heap.mem.bytes[..];
    ghost var b := BlockOf(bs, lo, hi, capacity, bs1, ptr);
    assert heap !in stream.Footprint();
    ghost var m2;
    result, m2 := PrintInBlock(heap, stream, ptr, capacity, format, args, b);
    BorrowUntouched(m, m1, m2, heap.mem.bytes[..], bs, bs1, heap.blocks, ptr, lo, hi, capacity);
  }

  /** The block behind a pointer just allocated. */
  lemma BlockOf(bs: seq<Block>, lo: nat, hi: nat, capacity: u32, bs1: seq<Block>, ptr: nat) returns (b: Block)
    requires Tiles(bs, lo, hi) && MallocOutcome(bs, capacity) == Outcome(bs1, ptr) && ptr != 0
    ensures b in bs1 && b.Payload() == ptr && capacity <= b.size && b.End() <= hi
    ensures IndexOf(bs1, ptr) < |bs1|
  {
    MallocFresh(bs, lo, hi, capacity);
    b :| b in bs1 && !b.free && b.Payload() == ptr && capacity <= b.size && b.End() <= hi;
    IndexOfMember(bs1, ptr, b);
  }

  /** Format into the block, write it out, free the block; `formatted` is memory before the free. */
  method PrintInBlock(heap: H.Heap, stream: Stream, ptr: u32, capacity: u32, format: seq<byte>, args: seq<Arg>,
                      ghost b: Block) returns (result: int, ghost written: seq<byte>)
    requires WellFormed(format, args) && |Render(format, args)| < TWO32 && Apart(heap, stream)
    requires heap.Valid() && heap.ready && heap.Known(ptr)
    requires b in heap.blocks && b.Payload() == ptr && capacity <= b.size
    requires b.End() <= heap.mem.bytes.Length && capacity == Min(|Render(format, args)|, INT_MAX) + 1
    modifies stream.Footprint(), heap.mem, heap.mem.bytes, heap`blocks, heap`active
    ensures heap.Valid() && stream.Valid() && heap.blocks == FreeOutcome(old(heap.blocks), ptr)
    ensures LiveKept(old(heap.mem.bytes[..]), written, old(heap.blocks), old(heap.blocks), ptr, heap.first, heap.end)
    ensures LiveKept(written, heap.mem.bytes[..], old(heap.blocks), heap.blocks, ptr, heap.first, heap.end)
    ensures Accepted(old(stream.delivered), stream.delivered, Deliverable(Render(format, args)), result)
    ensures stream.Accepting() ==> result != -1 && Logged(stream, Deliverable(Render(format, args)))
  {
    var formatted := FormatInHeap(heap, ptr, capacity, format, args, b);
    written := heap.mem.bytes[..];
    result := WriteFormatted(stream, heap.mem.bytes[ptr..ptr + formatted]);
    heap.Free(ptr);
  }

  /** Writes formatted text out: its length, or -1. */
  method WriteFormatted(stream: Stream, data: seq<byte>) returns (result: int)
    requires |data| <= INT_MAX && stream.Valid()
    modifies stream.Footprint()
    ensures stream.Valid() && Accepted(old(stream.delivered), stream.delivered, data, result)
    ensures stream.Accepting() ==> result != -1 && Logged(stream, data)
  {
    result := WriteAll(stream, data);
    if result < 0 {
      return -1;
    }
    result := |data|;
  }

  /**
   Formatted output: all of the text (as far as an `int` counts), or -1 with a prefix of it delivered; in either
   case the heap is as it was.
   */
  method Vfprintf(heap: H.Heap, stream: Stream?, format: CharPtr, args: seq<Arg>) returns (result: int)
    requires heap.Valid() && Apart(heap, stream)
    requires format.Chars? ==> WellFormed(format.bytes, args) && |Render(format.bytes, args)| < TWO32
    modifies if stream == null then {} else stream.Footprint()
    modifies heap.mem, heap.mem.bytes, heap`blocks, heap`active
    ensures heap.Valid() && (stream != null ==> stream.Valid())
    ensures Untouched(old(heap.mem.bytes[..]), heap.mem.bytes[..], old(heap.blocks), heap.blocks, heap.first, heap.end)
    ensures stream == null || format.Null? ==> result == -1
    ensures stream != null && format.Null? ==> stream.delivered == old(stream.delivered)
    ensures stream != null && format.Chars? ==>
              Accepted(old(stream.delivered), stream.delivered, Deliverable(Render(format.bytes, args)), result)
    ensures stream != null && format.Chars? && stream.Accepting() ==>
              var n := Min(|Render(format.bytes, args)|, INT_MAX);
              n < STACK_BUFFER || MallocOutcome(old(heap.blocks), n + 1).ptr != 0 ==>
                result != -1 && Logged(stream, Deliverable(Render(format.bytes, args)))
  {
    NothingBorrowed(heap);
    if stream == null || format.Null? {
      return -1;
    }
    var needed := Vsnprintf(null, 0, 0, format.bytes, args);
    var capacity := needed + 1;
    if capacity > STACK_BUFFER {
      result := PrintThroughHeap(heap, stream, capacity, format.bytes, args);
      return;
    }
    result := PrintThroughStack(stream, capacity, format.bytes, args);
  }

  /** The path through the stack: format, write. */
  method PrintThroughStack(stream: Stream, capacity: u32, format: seq<byte>, args: seq<Arg>) returns (result: int)
    requires WellFormed(format, args) && capacity == |Render(format, args)| + 1 <= STACK_BUFFER && stream.Valid()
    modifies stream.Footprint()
    ensures stream.Valid()
    ensures Accepted(old(stream.delivered), stream.delivered, Deliverable(Render(format, args)), result)
    ensures stream.Accepting() ==> result != -1 && Logged(stream, Deliverable(Render(format, args)))
  {
    var formatted, buffer := FormatOnStack(capacity, format, args);
    AllDeliverable(Render(format, args));
    result := WriteFormatted(stream, buffer[..formatted]);
  }

  /** A print on a stream to the debug log, read back: the recent log ends in the whole printed text. */
  method PrintToLog(heap: H.Heap, log: D.Log, serial: nat -> int, format: seq<byte>, args: seq<Arg>,
                    destination: array<byte>, capacity: u32) returns (printed: int, count: u32)
    requires heap.Valid() && log.Valid() && log.ring != heap.mem.bytes
    requires destination != log.ring && destination != heap.mem.bytes && 0 < capacity <= destination.Length
    requires WellFormed(format, args) && |Render(format, args)| <= INT_MAX
    requires |Render(format, args)| < STACK_BUFFER || MallocOutcome(heap.blocks, |Render(format, args)| + 1).ptr != 0
    modifies heap.mem, heap.mem.bytes, heap`blocks, heap`active, log, log.ring, destination
    ensures heap.Valid() && log.Valid()
    ensures printed == |Render(format, args)| && log.log == old(log.log) + Render(format, args)
    ensures count == D.Readable(log.log, capacity) && destination[..count] == D.Last(log.log, count)
    ensures var text := Render(format, args);
            |text| < capacity && |text| <= D.RING_BYTES ==>
            |text| <= count && destination[count - |text|..count] == text
  {
    ghost var before, text := log.log, Render(format, args);
    var stream := new Stream(true, (n, size) => 0, log, serial);
    printed := PrintWhole(heap, stream, format, args);
    count := log.CopyRecent(destination, capacity);
    EndsInText(before, text, capacity, count, destination[..]);
  }

  /** A print that is accepted whole, and finds its memory. */
  method PrintWhole(heap: H.Heap, stream: Stream, format: seq<byte>, args: seq<Arg>) returns (printed: int)
    requires heap.Valid() && Apart(heap, stream) && stream.Accepting()
    requires WellFormed(format, args) && |Render(format, args)| <= INT_MAX
    requires |Render(format, args)| < STACK_BUFFER || MallocOutcome(heap.blocks, |Render(format, args)| + 1).ptr != 0
    modifies heap.mem, heap.mem.bytes, heap`blocks, heap`active, stream.Footprint()
    ensures heap.Valid() && stream.Valid() && printed == |Render(format, args)| && Logged(stream, Render(format, args))
  {
    AllDeliverable(Render(format, args));
    printed := Vfprintf(heap, stream, Chars(format), args);
  }

  lemma AllDeliverable(text: seq<byte>)
    requires |text| <= INT_MAX
    ensures Deliverable(text) == text
  {
  }

  /** What is read back from the log ends in what was written last. */
  lemma EndsInText(before: seq<byte>, text: seq<byte>, capacity: nat, count: nat, read: seq<byte>)
    requires 0 < capacity && count == D.Readable(before + text, capacity) <= |read|
    requires read[..count] == D.Last(before + text, count)
    ensures |text| < capacity && |text| <= D.RING_BYTES ==> |text| <= count && read[count - |text|..count] == text
  {
    var tail := D.Last(before + text, count);
    if |text| < capacity && |text| <= D.RING_BYTES {
      assert tail[count - |text|..] == text;
      assert read[count - |text|..count] == tail[count - |text|..];
    }
  }

  lemma NothingBorrowed(heap: H.Heap)
    requires heap.Valid()
    ensures Untouched(heap.mem.bytes[..], heap.mem.bytes[..], heap.blocks, heap.blocks, heap.first, heap.end)
  {
    LiveKeptReflexive(heap.mem.bytes[..], heap.blocks, 0, heap.first, heap.end);
  }
}
