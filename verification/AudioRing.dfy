/** The frame ring of the audio service, its render block, and the SPU2 block layout. */
module AudioRing {
  import opened Machine
  import opened Resampler

  const RING_FRAMES: nat := 4096
  const BLOCK_FRAMES: nat := 512
  const MAX_SUBMIT: nat := 512
  const BLOCK_SAMPLES: nat := 1024   // one 2048-byte SPU2 block
  const MAX_LATENCY_MS: nat := 1000

  datatype Frame = Frame(left: s16, right: s16)

  const SILENCE: Frame := Frame(0, 0)

  /** A taken prefix, padded to a block with silence. */
  function Padded(taken: seq<Frame>): (r: seq<Frame>)
    requires |taken| <= BLOCK_FRAMES
    ensures |r| == BLOCK_FRAMES
  {
    taken + seq(BLOCK_FRAMES - |taken|, (i: int) => SILENCE)
  }

  lemma PaddedAt(taken: seq<Frame>, i: nat)
    requires |taken| <= BLOCK_FRAMES && i < BLOCK_FRAMES
    ensures Padded(taken)[i] == if i < |taken| then taken[i] else Frame(0, 0)
  {
  }

  /** Ring slot `n` places after `start`. */
  function Slot(start: nat, n: nat): (r: nat)
    ensures r < RING_FRAMES
  {
    (start + n) % 4096
  }

  lemma SlotsDiffer(start: nat, i: nat, j: nat)
    requires i < j < i + RING_FRAMES
    ensures Slot(start, i) != Slot(start, j)
  {
  }

  lemma SlotAdds(start: nat, m: nat, n: nat)
    ensures Slot(Slot(start, m), n) == Slot(start, m + n)
  {
  }

  /** The ring holds exactly `queue`, starting at `read`. */
  ghost predicate Holds(ring: seq<Frame>, read: nat, queue: seq<Frame>) {
    && |ring| == RING_FRAMES && read < RING_FRAMES && |queue| <= RING_FRAMES
    && forall i :: 0 <= i < |queue| ==> ring[Slot(read, i)] == queue[i]
  }

  /** Storing right behind the window makes the window one frame longer. */
  lemma StoreNext(ring: seq<Frame>, read: nat, queue: seq<Frame>, f: Frame)
    requires Holds(ring, read, queue) && |queue| < RING_FRAMES
    ensures Holds(ring[Slot(read, |queue|) := f], read, queue + [f])
  {
    var ring', queue' := ring[Slot(read, |queue|) := f], queue + [f];
    forall i | 0 <= i < |queue'| ensures ring'[Slot(read, i)] == queue'[i] {
      if i < |queue| { SlotsDiffer(read, i, |queue|); }
    }
  }

  lemma SliceGrows(queue: seq<Frame>, source: seq<Frame>, from: nat, n: nat)
    requires from + n < |source|
    ensures queue + source[from..from + (n + 1)] == queue + source[from..from + n] + [source[from + n]]
  {
  }

  /** One pass of the copy loop: the next source frame goes right behind what the ring holds. */
  lemma StorePass(ring: seq<Frame>, read: nat, queue: seq<Frame>, source: seq<Frame>, from: nat, n: nat, f: Frame)
    requires from + n < |source| && source[from + n] == f && |queue| + n < RING_FRAMES
    requires Holds(ring, read, queue + source[from..from + n])
    ensures Holds(ring[Slot(Slot(read, |queue|), n) := f], read, queue + source[from..from + (n + 1)])
  {
    SlotAdds(read, |queue|, n);
    StoreNext(ring, read, queue + source[from..from + n], f);
    SliceGrows(queue, source, from, n);
  }

  lemma HoldsRest(ring: seq<Frame>, read: nat, queue: seq<Frame>, take: nat)
    requires Holds(ring, read, queue) && take <= |queue|
    ensures Holds(ring, Slot(read, take), queue[take..])
  {
    forall i | 0 <= i < |queue| - take ensures ring[Slot(Slot(read, take), i)] == queue[take..][i] {
      SlotAdds(read, take, i);
    }
  }

  // ---------------------------------------------------------------- SPU2 block layout

  /** Four runs of 256 samples: left, right, left, right. */
  function Encode(render: seq<Frame>): (block: seq<s16>)
    requires |render| == BLOCK_FRAMES
    ensures |block| == BLOCK_SAMPLES
  {
    seq(BLOCK_SAMPLES, (k: int) requires 0 <= k < BLOCK_SAMPLES =>
      var f := render[k % 256 + (if k < 512 then 0 else 256)];
      if k / 256 % 2 == 0 then f.left else f.right)
  }

  /** What the SPU2 plays from a block: frame i of its two channels. */
  function Decode(block: seq<s16>): (render: seq<Frame>)
    requires |block| == BLOCK_SAMPLES
    ensures |render| == BLOCK_FRAMES
  {
    seq(BLOCK_FRAMES, (i: int) requires 0 <= i < BLOCK_FRAMES =>
      if i < 256 then Frame(block[i], block[256 + i]) else Frame(block[256 + i], block[512 + i]))
  }

  lemma EncodeAt(render: seq<Frame>, i: nat)
    requires |render| == BLOCK_FRAMES && i < 256
    ensures var b := Encode(render);
            && b[i] == render[i].left && b[256 + i] == render[i].right
            && b[512 + i] == render[256 + i].left && b[768 + i] == render[256 + i].right
  {
  }

  /** The layout loses nothing: the SPU2 plays the frames that were rendered. */
  lemma DecodeEncode(render: seq<Frame>)
    requires |render| == BLOCK_FRAMES
    ensures Decode(Encode(render)) == render
  {
    forall i | 0 <= i < BLOCK_FRAMES ensures Decode(Encode(render))[i] == render[i] {
      EncodeAt(render, if i < 256 then i else i - 256);
    }
  }

  // ---------------------------------------------------------------- the sequential code

  /** Frame `p` of interleaved samples. */
  function FrameOf(samples: seq<s16>, p: nat): (f: Frame)
    requires 2 * p + 1 < |samples|
  {
    Frame(samples[2 * p], samples[2 * p + 1])
  }

  function FramesOf(samples: seq<s16>): (r: seq<Frame>)
    requires |samples| % 2 == 0
    ensures |r| == |samples| / 2
  {
    seq(|samples| / 2, (p: int) requires 0 <= p < |samples| / 2 => FrameOf(samples, p))
  }

  /** Queue limit for a latency: whole blocks, rounded up, between one block and the ring. */
  function LimitFor(latency_ms: nat): (r: nat) {
    Min(Max((latency_ms * 48 + 511) / 512 * 512, BLOCK_FRAMES), RING_FRAMES)
  }

  class Queue {
    const ring: array<s16>
    const renderLeft: array<s16>
    const renderRight: array<s16>
    var read: nat
    var write: nat
    var queued: nat
    var limit: nat
    var underruns: u32
    var overruns: u32
    var paused: bool
    var space: bool                 // the binary semaphore a full submit waits on
    ghost var queue: seq<Frame>

    ghost predicate Shape()
      reads this
    {
      && ring.Length == 2 * RING_FRAMES && renderLeft.Length == renderRight.Length == BLOCK_FRAMES
      && ring != renderLeft && ring != renderRight && renderLeft != renderRight
      && read < RING_FRAMES && queued == |queue| <= RING_FRAMES
      && write == Slot(read, queued)
      && BLOCK_FRAMES <= limit <= RING_FRAMES
    }

    ghost predicate Valid()
      reads this, ring
    {
      Shape() && Holds(FramesOf(ring[..]), read, queue)
    }

    constructor ()
      ensures Valid() && queue == [] && limit == RING_FRAMES && !paused && !space
      ensures fresh(ring) && fresh(renderLeft) && fresh(renderRight)
    {
      ring := new s16[2 * RING_FRAMES](i => 0);
      renderLeft := new s16[BLOCK_FRAMES](i => 0);
      renderRight := new s16[BLOCK_FRAMES](i => 0);
      read, write, queued, limit, underruns, overruns, paused, space := 0, 0, 0, RING_FRAMES, 0, 0, false, false;
      queue := [];
    }

    /** One pass of the submit loop with the mutex held: as many frames as fit below the limit. */
    method SubmitPass(samples: array<s16>, frames: nat, sourceFrame: nat) returns (count: nat)
      requires Valid() && samples.Length % 2 == 0 && 2 * frames <= samples.Length && sourceFrame < frames
      requires samples != ring
      modifies ring, `write, `queued, `overruns, `queue
      ensures Valid()
      ensures count == Min(frames - sourceFrame, Max(limit - |old(queue)|, 0))
      ensures queue == old(queue) + FramesOf(samples[..])[sourceFrame..sourceFrame + count]
      ensures overruns == if count == 0 then (old(overruns) + 1) % TWO32 else old(overruns)
    {
      var space := if queued >= limit then 0 else limit - queued;
      if space == 0 {
        overruns := (overruns + 1) % TWO32;
        assert queue == queue + FramesOf(samples[..])[sourceFrame..sourceFrame];
        return 0;
      }
      count := frames - sourceFrame;
      if count > space {
        count := space;
      }
      Append(samples, sourceFrame, count);
    }

    /** Stores frames behind the queue and counts them in. */
    method Append(samples: array<s16>, sourceFrame: nat, count: nat)
      requires Valid() && samples != ring && samples.Length % 2 == 0 && 2 * (sourceFrame + count) <= samples.Length
      requires queued + count <= RING_FRAMES
      modifies ring, `write, `queued, `queue
      ensures Valid() && queue == old(queue) + FramesOf(samples[..])[sourceFrame..sourceFrame + count]
    {
      CopyIn(samples, sourceFrame, count);
      SlotAdds(read, queued, count);
      write := (write + count) % 4096;
      queued := queued + count;
      queue := queue + FramesOf(samples[..])[sourceFrame..sourceFrame + count];
    }

    /** The copy loop of a pass. */
    method CopyIn(samples: array<s16>, sourceFrame: nat, count: nat)
      requires Valid() && samples != ring && samples.Length % 2 == 0 && 2 * (sourceFrame + count) <= samples.Length
      requires queued + count <= RING_FRAMES
      modifies ring
      ensures Holds(FramesOf(ring[..]), read, queue + FramesOf(samples[..])[sourceFrame..sourceFrame + count])
    {
      ghost var source := FramesOf(samples[..]);
      assert queue + source[sourceFrame..sourceFrame] == queue;
      var i := 0;
      while i < count
        invariant 0 <= i <= count
        invariant Holds(FramesOf(ring[..]), read, queue + source[sourceFrame..sourceFrame + i])
      {
        CopyFrame(samples, source, sourceFrame, i);
        i := i + 1;
      }
    }

    /** One pass of the copy loop. */
    method CopyFrame(samples: array<s16>, ghost source: seq<Frame>, sourceFrame: nat, i: nat)
      requires Shape() && samples != ring && 2 * (sourceFrame + i) + 1 < samples.Length && queued + i < RING_FRAMES
      requires sourceFrame + i < |source| && source[sourceFrame + i] == FrameOf(samples[..], sourceFrame + i)
      requires Holds(FramesOf(ring[..]), read, queue + source[sourceFrame..sourceFrame + i])
      modifies ring
      ensures Holds(FramesOf(ring[..]), read, queue + source[sourceFrame..sourceFrame + (i + 1)])
    {
      var left, right := samples[2 * (sourceFrame + i)], samples[2 * (sourceFrame + i) + 1];
      StorePass(FramesOf(ring[..]), read, queue, source, sourceFrame, i, Frame(left, right));
      StoreFrame((write + i) % 4096, left, right);
    }

    method StoreFrame(position: nat, left: s16, right: s16)
      requires Shape() && position < RING_FRAMES
      modifies ring
      ensures FramesOf(ring[..]) == old(FramesOf(ring[..]))[position := Frame(left, right)]
    {
      ghost var before := FramesOf(ring[..]);
      ring[2 * position] := left;
      ring[2 * position + 1] := right;
      ghost var after := FramesOf(ring[..]);
      forall p | 0 <= p < RING_FRAMES ensures after[p] == before[position := Frame(left, right)][p] {
      }
    }

    ghost function Render(): (r: seq<Frame>)
      requires Shape()
      reads this, renderLeft, renderRight
      ensures |r| == BLOCK_FRAMES
    {
      seq(BLOCK_FRAMES, (i: int) requires 0 <= i < BLOCK_FRAMES
                        requires renderLeft.Length == renderRight.Length == BLOCK_FRAMES
                        reads renderLeft, renderRight => Frame(renderLeft[i], renderRight[i]))
    }

    /** Renders a FIFO prefix padded with silence, and drops it from the ring. */
    method FillRenderBlock() returns (take: nat)
      requires Valid()
      modifies renderLeft, renderRight, `read, `queued, `underruns, `queue, `space
      ensures Valid() && space == (old(space) || take != 0)
      ensures take == if paused then 0 else Min(|old(queue)|, BLOCK_FRAMES)
      ensures Render() == Padded(old(queue)[..take]) && queue == old(queue)[take..]
      ensures underruns == if !paused && take < BLOCK_FRAMES then (old(underruns) + 1) % TWO32 else old(underruns)
    {
      if paused {
        take := 0;
      } else {
        take := queued;
        if take > BLOCK_FRAMES {
          take := BLOCK_FRAMES;
        }
      }
      RenderFrames(take);
      if take != 0 {
        Drop(take);
      }
      if !paused && take < BLOCK_FRAMES {
        underruns := (underruns + 1) % TWO32;
      }
      if take != 0 {
        space := true;
      }
    }

    /** Frees the slots of the oldest frames. */
    method Drop(take: nat)
      requires Valid() && take <= queued
      modifies `read, `queued, `queue
      ensures Valid() && queue == old(queue)[take..]
    {
      HoldsRest(FramesOf(ring[..]), read, queue, take);
      SlotAdds(read, take, queued - take);
      read := (read + take) % 4096;
      queued := queued - take;
      queue := queue[take..];
    }

    /** The render loop: frames of the ring as far as `take`, silence behind them. */
    method RenderFrames(take: nat)
      requires Valid() && take <= queued && take <= BLOCK_FRAMES
      modifies renderLeft, renderRight
      ensures Render() == Padded(queue[..take])
    {
      var i := 0;
      while i < BLOCK_FRAMES
        invariant 0 <= i <= BLOCK_FRAMES
        invariant forall k :: 0 <= k < i ==> Frame(renderLeft[k], renderRight[k]) == Padded(queue[..take])[k]
        modifies renderLeft, renderRight
      {
        var left, right := RingFrame(i, take);
        renderLeft[i] := left;
        renderRight[i] := right;
        i := i + 1;
      }
    }

    method RingFrame(i: nat, take: nat) returns (left: s16, right: s16)
      requires Valid() && take <= queued && take <= BLOCK_FRAMES && i < BLOCK_FRAMES
      ensures Frame(left, right) == Padded(queue[..take])[i]
    {
      left, right := 0, 0;
      if i < take {
        var position := Slot(read, i);
        left, right := ring[2 * position], ring[2 * position + 1];
        assert FramesOf(ring[..])[position] == Frame(left, right);
      }
    }

    /** Empties the queue, and wakes a submitter that waits for room. */
    method Flush()
      requires Valid()
      modifies `read, `write, `queued, `queue, `space
      ensures Valid() && queue == [] && space
    {
      read, write, queued := 0, 0, 0;
      queue := [];
      space := true;
    }

    method SetLatencyMs(latencyMs: u32) returns (result: int)
      requires Valid()
      modifies `limit, `space
      ensures Valid() && space == (old(space) || result == 0)
      ensures result == if 1 <= latencyMs <= MAX_LATENCY_MS then 0 else -1
      ensures limit == if result == 0 then LimitFor(latencyMs) else old(limit)
    {
      if latencyMs == 0 || latencyMs > 1000 {
        return -1;
      }
      var frames := latencyMs * 48;
      frames := (frames + BLOCK_FRAMES - 1) / 512 * 512;
      if frames < BLOCK_FRAMES {
        frames := BLOCK_FRAMES;
      }
      if frames > RING_FRAMES {
        frames := RING_FRAMES;
      }
      limit := frames;
      space := true;
      return 0;
    }

    method CopyFour(buffer: array<s16>, base: nat, i: nat)
      requires Shape() && base + BLOCK_SAMPLES <= buffer.Length && i < 256
      requires buffer != renderLeft && buffer != renderRight
      modifies buffer
      ensures buffer[..] == StoreFour(old(buffer[..]), base, Encode(Render()), i)
    {
      EncodeAt(Render(), i);
      buffer[base + i] := renderLeft[i];
      buffer[base + 256 + i] := renderRight[i];
      buffer[base + 512 + i] := renderLeft[i + 256];
      buffer[base + 768 + i] := renderRight[i + 256];
    }

    /** Copies the render block into the SPU2 block at sample offset `base`, in the four-part layout. */
    method CopyRenderToSpu(buffer: array<s16>, base: nat)
      requires Shape() && base + BLOCK_SAMPLES <= buffer.Length
      requires buffer != renderLeft && buffer != renderRight && buffer != ring
      modifies buffer
      ensures buffer[base..base + BLOCK_SAMPLES] == Encode(Render())
      ensures forall k :: 0 <= k < buffer.Length && !(base <= k < base + BLOCK_SAMPLES) ==> buffer[k] == old(buffer[k])
    {
      ghost var block := Encode(Render());
      var i := 0;
      while i < 256
        invariant 0 <= i <= 256 && Render() == old(Render())
        invariant forall k :: 0 <= k < i ==> FourStored(buffer[..], base, block, k)
        invariant forall k :: 0 <= k < buffer.Length && !(base <= k < base + BLOCK_SAMPLES) ==>
                    buffer[k] == old(buffer[k])
      {
        FourKept(buffer[..], base, block, i);
        CopyFour(buffer, base, i);
        i := i + 1;
      }
      AllStored(buffer[..], base, block);
    }
  }

  /** The four samples that pass `k` of the copy stores. */
  ghost predicate FourStored(buffer: seq<s16>, base: nat, block: seq<s16>, k: nat)
    requires base + BLOCK_SAMPLES <= |buffer| && |block| == BLOCK_SAMPLES && k < 256
  {
    && buffer[base + k] == block[k] && buffer[base + 256 + k] == block[256 + k]
    && buffer[base + 512 + k] == block[512 + k] && buffer[base + 768 + k] == block[768 + k]
  }

  /** A block buffer after pass `i` of the copy. */
  function StoreFour(buffer: seq<s16>, base: nat, block: seq<s16>, i: nat): (r: seq<s16>)
    requires base + BLOCK_SAMPLES <= |buffer| && |block| == BLOCK_SAMPLES && i < 256
    ensures |r| == |buffer|
    ensures forall k :: 0 <= k < |r| && !(base <= k < base + BLOCK_SAMPLES) ==> r[k] == buffer[k]
  {
    buffer[base + i := block[i]][base + 256 + i := block[256 + i]]
          [base + 512 + i := block[512 + i]][base + 768 + i := block[768 + i]]
  }

  lemma FourKept(buffer: seq<s16>, base: nat, block: seq<s16>, i: nat)
    requires base + BLOCK_SAMPLES <= |buffer| && |block| == BLOCK_SAMPLES && i < 256
    ensures FourStored(StoreFour(buffer, base, block, i), base, block, i)
    ensures forall k :: 0 <= k < i && FourStored(buffer, base, block, k) ==>
              FourStored(StoreFour(buffer, base, block, i), base, block, k)
  {
  }

  lemma AllStored(buffer: seq<s16>, base: nat, block: seq<s16>)
    requires base + BLOCK_SAMPLES <= |buffer| && |block| == BLOCK_SAMPLES
    requires forall k :: 0 <= k < 256 ==> FourStored(buffer, base, block, k)
    ensures buffer[base..base + BLOCK_SAMPLES] == block
  {
    var part := buffer[base..base + BLOCK_SAMPLES];
    forall k | 0 <= k < BLOCK_SAMPLES ensures part[k] == block[k] {
      var r := k % 256;
      assert FourStored(buffer, base, block, r);
      assert k == r || k == 256 + r || k == 512 + r || k == 768 + r;
    }
  }

  /** The limit is a whole number of blocks, is never beaten by the request, and grows with it. */
  lemma LimitForShape(latency_ms: nat)
    requires 1 <= latency_ms
    ensures LimitFor(latency_ms) % 512 == 0 && BLOCK_FRAMES <= LimitFor(latency_ms) <= RING_FRAMES
    ensures Min(latency_ms * 48, RING_FRAMES) <= LimitFor(latency_ms) <= latency_ms * 48 + 511
    ensures LimitFor(latency_ms) <= LimitFor(latency_ms + 1)
  {
  }

  /** Sample `channel` of frame `i` of interleaved stereo samples, or silence behind them. */
  function SampleOr0(samples: seq<s16>, frames: nat, i: nat, channel: nat): (r: s16)
    requires 2 * frames <= |samples| && channel < 2
  {
    if i < frames then samples[2 * i + channel] else 0
  }

  /** Frame `i` of the render arrays: the first sample left, the second right. */
  predicate PairRendered(left: seq<s16>, right: seq<s16>, samples: seq<s16>, frames: nat, i: nat)
    requires |left| == |right| == BLOCK_FRAMES && 2 * frames <= |samples| && i < BLOCK_FRAMES
  {
    left[i] == SampleOr0(samples, frames, i, 0) && right[i] == SampleOr0(samples, frames, i, 1)
  }

  /** The four samples at `i` in the parts of an SPU2 block: frames 0 to 255 left and right, then 256 to 511. */
  predicate FourPlaced(buffer: seq<s16>, base: nat, samples: seq<s16>, frames: nat, i: nat)
    requires base + BLOCK_SAMPLES <= |buffer| && 2 * frames <= |samples| && i < 256
  {
    && buffer[base + i] == SampleOr0(samples, frames, i, 0)
    && buffer[base + 256 + i] == SampleOr0(samples, frames, i, 1)
    && buffer[base + 512 + i] == SampleOr0(samples, frames, 256 + i, 0)
    && buffer[base + 768 + i] == SampleOr0(samples, frames, 256 + i, 1)
  }

  /**
   Submit, render and copy on the arrays: the frames given, first sample left and second right, are what the render
   arrays hold, and what the four parts of the SPU2 block hold.
   */
  method SubmitRenderCopy(q: Queue, samples: array<s16>, frames: nat, buffer: array<s16>, base: nat)
    requires q.Valid() && q.queue == [] && !q.paused && 0 < frames <= BLOCK_FRAMES
    requires 2 * frames <= samples.Length && samples.Length % 2 == 0 && base + BLOCK_SAMPLES <= buffer.Length
    requires samples != q.ring && samples != q.renderLeft && samples != q.renderRight && samples != buffer
    requires buffer != q.ring && buffer != q.renderLeft && buffer != q.renderRight
    modifies q, q.ring, q.renderLeft, q.renderRight, buffer
    ensures q.Valid() && q.queue == []
    ensures forall i :: 0 <= i < BLOCK_FRAMES ==>
              PairRendered(q.renderLeft[..], q.renderRight[..], samples[..], frames, i)
    ensures forall i :: 0 <= i < 256 ==> FourPlaced(buffer[..], base, samples[..], frames, i)
  {
    SubmitRender(q, samples, frames);
    q.CopyRenderToSpu(buffer, base);
    CopiedSamples(q, buffer[..], base, samples[..], frames);
  }

  method SubmitRender(q: Queue, samples: array<s16>, frames: nat)
    requires q.Valid() && q.queue == [] && !q.paused && 0 < frames <= BLOCK_FRAMES
    requires 2 * frames <= samples.Length && samples.Length % 2 == 0
    requires samples != q.ring && samples != q.renderLeft && samples != q.renderRight
    modifies q, q.ring, q.renderLeft, q.renderRight
    ensures q.Valid() && q.queue == []
    ensures forall i :: 0 <= i < BLOCK_FRAMES ==>
              PairRendered(q.renderLeft[..], q.renderRight[..], samples[..], frames, i)
  {
    var count := q.SubmitPass(samples, frames, 0);
    FirstFrames(FramesOf(samples[..]), frames);
    var take := q.FillRenderBlock();
    RenderedSamples(q, samples[..], frames);
  }

  lemma FirstFrames(source: seq<Frame>, frames: nat)
    requires frames <= |source|
    ensures [] + source[0..frames] == source[..frames]
    ensures source[..frames][..frames] == source[..frames] && source[..frames][frames..] == []
  {
  }

  lemma RenderedSamples(q: Queue, samples: seq<s16>, frames: nat)
    requires q.Shape() && frames <= BLOCK_FRAMES && 2 * frames <= |samples| && |samples| % 2 == 0
    requires q.Render() == Padded(FramesOf(samples)[..frames])
    ensures forall i :: 0 <= i < BLOCK_FRAMES ==> PairRendered(q.renderLeft[..], q.renderRight[..], samples, frames, i)
  {
    forall i | 0 <= i < BLOCK_FRAMES
      ensures PairRendered(q.renderLeft[..], q.renderRight[..], samples, frames, i)
    {
      assert q.Render()[i] == Frame(q.renderLeft[i], q.renderRight[i]);
      PaddedAt(FramesOf(samples)[..frames], i);
    }
  }

  lemma CopiedSamples(q: Queue, buffer: seq<s16>, base: nat, samples: seq<s16>, frames: nat)
    requires q.Shape() && base + BLOCK_SAMPLES <= |buffer| && buffer[base..base + BLOCK_SAMPLES] == Encode(q.Render())
    requires 2 * frames <= |samples|
    requires forall i :: 0 <= i < BLOCK_FRAMES ==>
               PairRendered(q.renderLeft[..], q.renderRight[..], samples, frames, i)
    ensures forall i :: 0 <= i < 256 ==> FourPlaced(buffer, base, samples, frames, i)
  {
    var part, next := buffer[base..base + BLOCK_SAMPLES], 256;
    forall i | 0 <= i < 256 ensures FourPlaced(buffer, base, samples, frames, i) {
      EncodeAt(q.Render(), i);
      assert PairRendered(q.renderLeft[..], q.renderRight[..], samples, frames, i);
      assert PairRendered(q.renderLeft[..], q.renderRight[..], samples, frames, next + i);
      assert part[i] == buffer[base + i] && part[256 + i] == buffer[base + 256 + i];
      assert part[512 + i] == buffer[base + 512 + i] && part[768 + i] == buffer[base + 768 + i];
    }
  }
}
