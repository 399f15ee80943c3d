/** The converter object over a whole stream: its calls are the calls of the stream theorems. */
module ResamplerCalls {
  import opened Machine
  import opened Resampler
  import opened ResamplerStream
  import opened ResamplerRange

  /** The converter is set up for this source, at unequal rates. */
  ghost predicate Suits(c: Converter, src: Source)
    reads c
  {
    && c.Valid() && c.inputRate != c.outputRate && src.Valid()
    && c.channels == src.channels && c.mode == src.mode
    && |src.samples| <= MAX_SAMPLES
  }

  /** A call within memory. */
  predicate Fits(call: Call, channels: Channels) {
    call.frames < TWO32 && call.capacity < TWO32 && Offset(call.capacity, channels) <= MAX_SAMPLES
  }

  /** One call on the first frames not given back makes that call's progress and that call's frames. */
  method OneCall(c: Converter, src: Source, ghost p: Progress, call: Call, input: array<s16>, output: array<s16>)
    returns (produced: u32, consumed: u32)
    requires Suits(c, src) && Fits(call, c.channels) && InRange(c.phase, c.step, call.frames, call.capacity)
    requires p.phase == c.phase
    requires p.taken + call.frames <= src.count && input[..] == src.Window(p.taken, call.frames).samples
    requires Offset(call.capacity, c.channels) <= output.Length <= MAX_SAMPLES && output != input
    modifies c`phase, output
    ensures c.Valid() && produced <= call.capacity
    ensures After(p, c.step, call) == Progress(p.taken + consumed, c.phase, p.made + produced)
    ensures TargetFrames(output[..], c.channels, produced) == CallFrames(src.Views(), p, c.step, call)
  {
    ghost var window, phase := src.Window(p.taken, call.frames), c.phase;
    produced, consumed := c.Process(input, call.frames, output, call.capacity);
    if call.frames >= 2 && call.capacity > 0 {
      window.StoredFrames(output[..], phase, c.step, produced);
    }
  }

  /** The source frames of a call, in an array of their own. */
  method Load(src: Source, from: nat, frames: nat) returns (input: array<s16>)
    requires src.Valid() && from + frames <= src.count
    ensures fresh(input) && input[..] == src.Window(from, frames).samples
  {
    var start, n := Offset(from, src.channels), Offset(frames, src.channels);
    input := new s16[n];
    var k := 0;
    while k < n
      invariant k <= n && forall j :: 0 <= j < k ==> input[j] == src.samples[start..start + n][j]
    {
      input[k] := src.samples[start + k];
      k := k + 1;
    }
  }

  predicate IsPrefix<T(==)>(a: seq<T>, b: seq<T>) {
    a <= b
  }

  lemma FrontIsPrefix<T>(s: seq<T>, n: nat)
    requires n <= |s|
    ensures IsPrefix(s[..n], s)
  {
  }

  /** The frames are a prefix of what one call with enough room makes of the whole source. */
  ghost predicate BeginsOneShot(frames: seq<Frame>, src: Source, step: nat, calls: seq<Call>) {
    forall capacity: nat :: AfterAll(START, step, calls).made <= capacity ==>
      IsPrefix(frames, OneShot(src.Views(), step, src.count, capacity))
  }

  /** One call of the caller: fetch the frames, make room, call. */
  method Turn(c: Converter, src: Source, ghost p: Progress, call: Call, taken: nat)
    returns (made: seq<Frame>, newTaken: nat)
    requires Suits(c, src) && Fits(call, c.channels) && InRange(c.phase, c.step, call.frames, call.capacity)
    requires p.phase == c.phase
    requires p.taken == taken && taken + call.frames <= src.count
    modifies c`phase
    ensures c.Valid()
    ensures made == CallFrames(src.Views(), p, c.step, call)
    ensures After(p, c.step, call).phase == c.phase && After(p, c.step, call).taken == newTaken
  {
    var input := Load(src, taken, call.frames);
    var output := new s16[Offset(call.capacity, c.channels)];
    var produced, consumed := OneCall(c, src, p, call, input, output);
    made := TargetFrames(output[..], c.channels, produced);
    newTaken := taken + consumed;
  }

  /**
   A caller that feeds a source in any pieces, each beginning at the first frame not given back: what the converter
   makes in all is a prefix of what one call on the whole source makes.
   */
  method ConvertAll(c: Converter, src: Source, calls: seq<Call>) returns (frames: seq<Frame>)
    requires Suits(c, src) && c.phase == 0 && Legal(START, c.step, src.count, calls)
    requires StreamInRange(START, c.step, calls) && forall k :: 0 <= k < |calls| ==> Fits(calls[k], c.channels)
    modifies c`phase
    ensures c.Valid() && c.phase == AfterAll(START, c.step, calls).phase
    ensures frames == RunFrames(src.Views(), START, c.step, calls)
    ensures BeginsOneShot(frames, src, c.step, calls)
  {
    frames := Feed(c, src, calls, 0, START);
    forall capacity: nat | AfterAll(START, c.step, calls).made <= capacity
      ensures IsPrefix(frames, OneShot(src.Views(), c.step, src.count, capacity))
    {
      PrefixOfOneShot(frames, src, c.step, calls, capacity);
    }
  }

  /** The caller, from the point `p` of the stream on. */
  method Feed(c: Converter, src: Source, calls: seq<Call>, taken: nat, ghost p: Progress) returns (frames: seq<Frame>)
    requires Suits(c, src) && p.phase == c.phase && p.taken == taken
    requires Legal(p, c.step, src.count, calls) && StreamInRange(p, c.step, calls)
    requires forall k :: 0 <= k < |calls| ==> Fits(calls[k], c.channels)
    modifies c`phase
    ensures c.Valid() && c.phase == AfterAll(p, c.step, calls).phase
    ensures frames == RunFrames(src.Views(), p, c.step, calls)
    decreases |calls|
  {
    frames := [];
    if |calls| > 0 {
      var made, newTaken := Turn(c, src, p, calls[0], taken);
      var rest := Feed(c, src, calls[1..], newTaken, After(p, c.step, calls[0]));
      frames := made + rest;
    }
  }

  lemma {:induction false} LegalAtMost(p: Progress, step: nat, total: nat, calls: seq<Call>)
    requires Legal(p, step, total, calls)
    ensures AtMost(calls, total)
    decreases calls
  {
    if |calls| > 0 {
      LegalAtMost(After(p, step, calls[0]), step, total, calls[1..]);
      forall k | 0 <= k < |calls| ensures calls[k].frames <= total {
        assert k > 0 ==> calls[k] == calls[1..][k - 1];
      }
    }
  }

  /** A new converter at these rates: whatever the cuts, the range is never left unless the rates are too far apart. */
  method ConvertAtRates(inputRate: u32, outputRate: u32, src: Source, calls: seq<Call>) returns (frames: seq<Frame>)
    requires src.Valid() && |src.samples| <= MAX_SAMPLES
    requires inputRate > 0 && outputRate > 0 && inputRate != outputRate
    requires outputRate >= 2 || inputRate + src.count <= TWO32
    requires Legal(START, inputRate * TWO32 / outputRate, src.count, calls)
    requires forall k :: 0 <= k < |calls| ==> Fits(calls[k], src.channels)
    ensures frames == RunFrames(src.Views(), START, inputRate * TWO32 / outputRate, calls)
    ensures BeginsOneShot(frames, src, inputRate * TWO32 / outputRate, calls)
  {
    var c := new Converter();
    var result := c.Init(inputRate, outputRate, src.channels, src.mode);
    StepPositive(inputRate, outputRate);
    LegalAtMost(START, c.step, src.count, calls);
    SafeRates(inputRate, outputRate, src.count, START, calls);
    frames := ConvertAll(c, src, calls);
  }

  lemma PrefixOfOneShot(frames: seq<Frame>, src: Source, step: nat, calls: seq<Call>, capacity: nat)
    requires src.Valid() && Legal(START, step, src.count, calls) && AfterAll(START, step, calls).made <= capacity
    requires frames == RunFrames(src.Views(), START, step, calls)
    ensures IsPrefix(frames, OneShot(src.Views(), step, src.count, capacity))
  {
    src.ChunkIndependence(step, calls, capacity);
    FrontIsPrefix(OneShot(src.Views(), step, src.count, capacity), AfterAll(START, step, calls).made);
  }
}
