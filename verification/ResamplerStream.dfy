/** The converter over a whole stream that is fed to it in pieces. */
module ResamplerStream {
  import opened Machine
  import opened Resampler

  /** One call: how many source frames it is given, and how many output frames there is room for. */
  datatype Call = Call(frames: nat, capacity: nat)

  /** Source frames given back so far, the carried phase, and output frames made so far. */
  datatype Progress = Progress(taken: nat, phase: nat, made: nat)

  const START: Progress := Progress(0, 0, 0)

  /** Output frames of one call, as the converter's Process promises them. */
  function Made(p: Progress, step: nat, call: Call): (n: nat) {
    if call.frames < 2 then 0 else Count(p.phase, step, call.frames, call.capacity)
  }

  function After(p: Progress, step: nat, call: Call): (r: Progress) {
    if call.frames < 2 || call.capacity == 0 then p
    else
      var n := Made(p, step, call);
      var position := Advance(p.phase, step, n);
      Progress(p.taken + Consumed(position, call.frames), Left(position, call.frames), p.made + n)
  }

  function AfterAll(p: Progress, step: nat, calls: seq<Call>): (r: Progress)
    decreases calls
  {
    if |calls| == 0 then p else AfterAll(After(p, step, calls[0]), step, calls[1..])
  }

  /** Every call starts at the first frame not given back and stays inside the source. */
  predicate Legal(p: Progress, step: nat, total: nat, calls: seq<Call>)
    decreases calls
  {
    |calls| == 0 || (p.taken + calls[0].frames <= total && Legal(After(p, step, calls[0]), step, total, calls[1..]))
  }

  // ---------------------------------------------------------------- frames

  type Frame = seq<int>

  type Reader = nat -> Frame

  /** What `f` gives at `start`, `start` + step, ..., `n` times. */
  function FramesFrom(f: Reader, start: nat, step: nat, n: nat): (r: seq<Frame>)
    ensures |r| == n
  {
    if n == 0 then [] else FramesFrom(f, start, step, n - 1) + [f(Advance(start, step, n - 1))]
  }

  lemma {:induction false} FramesFromIndex(f: Reader, start: nat, step: nat, n: nat, i: nat)
    requires i < n
    ensures FramesFrom(f, start, step, n)[i] == f(Advance(start, step, i))
  {
    if i < n - 1 {
      FramesFromIndex(f, start, step, n - 1, i);
    }
  }

  lemma {:induction false} FramesFromAppend(f: Reader, start: nat, step: nat, m: nat, n: nat)
    ensures FramesFrom(f, start, step, m + n) ==
            FramesFrom(f, start, step, m) + FramesFrom(f, Advance(start, step, m), step, n)
  {
    if n > 0 {
      FramesFromAppend(f, start, step, m, n - 1);
      AdvanceTwice(start, step, m, n - 1);
    }
  }

  /** Windows that agree with `f`, each shifted by where it starts. */
  type View = (nat, nat) -> Reader

  ghost predicate Windows(view: View, f: Reader, count: nat) {
    forall from: nat, frames: nat, pos: nat :: from + frames <= count && Covered(pos, frames) ==>
      view(from, frames)(pos) == f(Whole(from) + pos)
  }

  lemma {:induction false} WindowFrames(g: Reader, f: Reader, base: nat, frames: nat, start: nat, step: nat, n: nat)
    requires AllCovered(start, step, n, frames)
    requires forall pos: nat :: Covered(pos, frames) ==> g(pos) == f(base + pos)
    ensures FramesFrom(g, start, step, n) == FramesFrom(f, base + start, step, n)
  {
    if n > 0 {
      WindowFrames(g, f, base, frames, start, step, n - 1);
      AdvanceShift(base, start, step, n - 1);
    }
  }

  /** The output frames of one call, read through the window it is given. */
  function CallFrames(view: View, p: Progress, step: nat, call: Call): (r: seq<Frame>) {
    FramesFrom(view(p.taken, call.frames), p.phase, step, Made(p, step, call))
  }

  /** All output frames of a sequence of calls. */
  function RunFrames(view: View, p: Progress, step: nat, calls: seq<Call>): (r: seq<Frame>)
    decreases calls
  {
    if |calls| == 0 then []
    else CallFrames(view, p, step, calls[0]) + RunFrames(view, After(p, step, calls[0]), step, calls[1..])
  }

  /** The output of one call that is given the whole source. */
  function OneShot(view: View, step: nat, count: nat, capacity: nat): (r: seq<Frame>) {
    CallFrames(view, START, step, Call(count, capacity))
  }

  lemma CallIsIdeal(view: View, f: Reader, count: nat, p: Progress, step: nat, call: Call)
    requires Windows(view, f, count) && p.taken + call.frames <= count && OnTrack(p, step)
    ensures CallFrames(view, p, step, call) == FramesFrom(f, Advance(0, step, p.made), step, Made(p, step, call))
    ensures AllCovered(Advance(0, step, p.made), step, Made(p, step, call), count)
  {
    var m := Made(p, step, call);
    MadeCovered(p, step, call);
    WindowFrames(view(p.taken, call.frames), f, Whole(p.taken), call.frames, p.phase, step, m);
    AllCoveredShift(p.taken, call.frames, p.phase, step, m, count);
  }

  /** The accounting stays exact, and every output lies inside the source. */
  lemma {:induction false} RunOnTrack(count: nat, p: Progress, step: nat, calls: seq<Call>)
    requires Legal(p, step, count, calls) && OnTrack(p, step)
    ensures OnTrack(AfterAll(p, step, calls), step) && AfterAll(p, step, calls).made >= p.made
    ensures AllCovered(Advance(0, step, p.made), step, AfterAll(p, step, calls).made - p.made, count)
    decreases calls
  {
    if |calls| > 0 {
      var m, next := Made(p, step, calls[0]), After(p, step, calls[0]);
      MadeCovered(p, step, calls[0]);
      AllCoveredShift(p.taken, calls[0].frames, p.phase, step, m, count);
      StaysOnTrack(p, step, calls[0]);
      RunOnTrack(count, next, step, calls[1..]);
      AdvanceTwice(0, step, p.made, m);
      AllCoveredAppend(Advance(0, step, p.made), step, m, AfterAll(next, step, calls[1..]).made - next.made, count);
    }
  }

  /** Output frames `from` to `to`, as they should be. */
  function Stretch(f: Reader, step: nat, from: nat, to: nat): (r: seq<Frame>)
    requires from <= to
  {
    FramesFrom(f, Advance(0, step, from), step, to - from)
  }

  /** Every call of the run gives ideal frames. */
  ghost predicate CallsIdeal(view: View, f: Reader, p: Progress, step: nat, calls: seq<Call>)
    decreases calls
  {
    |calls| == 0
    || (var next := After(p, step, calls[0]);
        && p.made <= next.made
        && CallFrames(view, p, step, calls[0]) == Stretch(f, step, p.made, next.made)
        && CallsIdeal(view, f, next, step, calls[1..]))
  }

  lemma {:induction false} EveryCallIdeal(view: View, f: Reader, count: nat, p: Progress, step: nat, calls: seq<Call>)
    requires Windows(view, f, count) && Legal(p, step, count, calls) && OnTrack(p, step)
    ensures CallsIdeal(view, f, p, step, calls)
    decreases calls
  {
    if |calls| > 0 {
      CallIsIdeal(view, f, count, p, step, calls[0]);
      StaysOnTrack(p, step, calls[0]);
      EveryCallIdeal(view, f, count, After(p, step, calls[0]), step, calls[1..]);
    }
  }

  lemma {:induction false} CallsAddUp(view: View, f: Reader, p: Progress, step: nat, calls: seq<Call>)
    requires CallsIdeal(view, f, p, step, calls)
    ensures p.made <= AfterAll(p, step, calls).made
    ensures RunFrames(view, p, step, calls) == Stretch(f, step, p.made, AfterAll(p, step, calls).made)
    decreases calls
  {
    if |calls| > 0 {
      var next, rest := After(p, step, calls[0]), calls[1..];
      CallsAddUp(view, f, next, step, rest);
      GlueFrames(f, step, p.made, next.made, AfterAll(next, step, rest).made,
                 CallFrames(view, p, step, calls[0]), RunFrames(view, next, step, rest));
    }
  }

  /** From a point reached by the run, the frames still to come lie at the next multiples of the step. */
  lemma RunIsIdeal(view: View, f: Reader, count: nat, p: Progress, step: nat, calls: seq<Call>)
    requires Windows(view, f, count) && Legal(p, step, count, calls) && OnTrack(p, step)
    ensures p.made <= AfterAll(p, step, calls).made
    ensures RunFrames(view, p, step, calls) == Stretch(f, step, p.made, AfterAll(p, step, calls).made)
  {
    EveryCallIdeal(view, f, count, p, step, calls);
    CallsAddUp(view, f, p, step, calls);
  }

  /** Two stretches of ideal frames, one after the other. */
  lemma GlueFrames(f: Reader, step: nat, from: nat, mid: nat, to: nat, head: seq<Frame>, tail: seq<Frame>)
    requires from <= mid <= to
    requires head == Stretch(f, step, from, mid) && tail == Stretch(f, step, mid, to)
    ensures head + tail == Stretch(f, step, from, to)
  {
    AdvanceTwice(0, step, from, mid - from);
    FramesFromAppend(f, Advance(0, step, from), step, mid - from, to - mid);
  }

  /** Output frame k of any run is what `f` gives at k steps. */
  lemma RunFrameIs(view: View, f: Reader, count: nat, step: nat, calls: seq<Call>, k: nat)
    requires Windows(view, f, count) && Legal(START, step, count, calls) && k < |RunFrames(view, START, step, calls)|
    ensures Covered(k * step, count) && RunFrames(view, START, step, calls)[k] == f(k * step)
  {
    WholeRun(view, f, count, step, calls);
    IdealFrame(f, count, step, AfterAll(START, step, calls).made, k);
  }

  lemma IdealFrame(f: Reader, count: nat, step: nat, n: nat, k: nat)
    requires AllCovered(0, step, n, count) && k < |FramesFrom(f, 0, step, n)|
    ensures Covered(k * step, count) && FramesFrom(f, 0, step, n)[k] == f(k * step)
  {
    FramesFromIndex(f, 0, step, n, k);
    CoveredAt(0, step, n, count, k);
    AdvanceIs(0, step, k);
  }

  /** A whole run gives ideal frames from the start, all inside the source. */
  lemma WholeRun(view: View, f: Reader, count: nat, step: nat, calls: seq<Call>)
    requires Windows(view, f, count) && Legal(START, step, count, calls)
    ensures var k := AfterAll(START, step, calls).made;
            RunFrames(view, START, step, calls) == FramesFrom(f, 0, step, k) && AllCovered(0, step, k, count)
    ensures OnTrack(AfterAll(START, step, calls), step)
  {
    RunOnTrack(count, START, step, calls);
    WholeFrames(view, f, count, START, step, calls);
  }

  lemma WholeFrames(view: View, f: Reader, count: nat, p: Progress, step: nat, calls: seq<Call>)
    requires Windows(view, f, count) && Legal(p, step, count, calls) && OnTrack(p, step) && p.made == 0
    ensures RunFrames(view, p, step, calls) == FramesFrom(f, 0, step, AfterAll(p, step, calls).made)
  {
    RunIsIdeal(view, f, count, p, step, calls);
    assert Advance(0, step, p.made) == 0;
  }

  lemma OneShotIs(view: View, f: Reader, count: nat, step: nat, capacity: nat)
    requires Windows(view, f, count)
    ensures OneShot(view, step, count, capacity) == FramesFrom(f, 0, step, Made(START, step, Call(count, capacity)))
  {
    CallIsIdeal(view, f, count, START, step, Call(count, capacity));
  }

  lemma FramesPrefix(f: Reader, step: nat, k: nat, n: nat)
    requires k <= n
    ensures k <= |FramesFrom(f, 0, step, n)| && FramesFrom(f, 0, step, k) == FramesFrom(f, 0, step, n)[..k]
  {
    FramesFromAppend(f, 0, step, k, n - k);
  }

  /** However the source is cut into calls, the output is a prefix of the one-shot output. */
  lemma RunIsPrefix(view: View, f: Reader, count: nat, step: nat, calls: seq<Call>, capacity: nat)
    requires Windows(view, f, count) && Legal(START, step, count, calls)
    requires AfterAll(START, step, calls).made <= capacity
    ensures var k := AfterAll(START, step, calls).made;
            && k <= |OneShot(view, step, count, capacity)|
            && RunFrames(view, START, step, calls) == OneShot(view, step, count, capacity)[..k]
  {
    var k, n := AfterAll(START, step, calls).made, Made(START, step, Call(count, capacity));
    WholeRun(view, f, count, step, calls);
    OneShotIs(view, f, count, step, capacity);
    PrefixCovered(step, k, count, capacity);
    FramesPrefix(f, step, k, n);
  }

  /** A call that sees the rest of the source and does not fill its room stops where the source ends. */
  lemma LastOutputs(p: Progress, step: nat, last: Call, count: nat)
    requires OnTrack(p, step) && p.taken + last.frames == count && last.frames >= 2
    requires Made(p, step, last) < last.capacity
    ensures AllCovered(Advance(0, step, p.made), step, Made(p, step, last), count)
    ensures !Covered(Advance(0, step, p.made + Made(p, step, last)), count)
  {
    var m := Made(p, step, last);
    CountMeans(p.phase, step, last.frames, last.capacity);
    AllCoveredShift(p.taken, last.frames, p.phase, step, m, count);
    AdvanceShift(Whole(p.taken), p.phase, step, m);
    AdvanceTwice(0, step, p.made, m);
  }

  /** A run whose last call saw the rest of the source and did not fill its room made every output there is. */
  lemma RunComplete(view: View, f: Reader, count: nat, step: nat, calls: seq<Call>, last: Call, capacity: nat)
    requires Windows(view, f, count) && Legal(START, step, count, calls)
    requires var p := AfterAll(START, step, calls);
             && p.taken + last.frames == count && last.frames >= 2 && Made(p, step, last) < last.capacity
             && p.made + Made(p, step, last) <= capacity
    ensures var p := AfterAll(START, step, calls);
            p.made + Made(p, step, last) == |OneShot(view, step, count, capacity)|
  {
    var p := AfterAll(START, step, calls);
    var m := Made(p, step, last);
    assert OnTrack(p, step) && AllCovered(0, step, p.made, count) by {
      WholeRun(view, f, count, step, calls);
    }
    LastReaches(p, step, last, count);
    FirstUncovered(view, f, step, count, capacity, p.made + m);
  }

  /** With its last call the run reaches the end of the source. */
  lemma LastReaches(p: Progress, step: nat, last: Call, count: nat)
    requires OnTrack(p, step) && p.taken + last.frames == count && last.frames >= 2
    requires Made(p, step, last) < last.capacity && AllCovered(0, step, p.made, count)
    ensures AllCovered(0, step, p.made + Made(p, step, last), count)
    ensures !Covered(Advance(0, step, p.made + Made(p, step, last)), count)
  {
    LastOutputs(p, step, last, count);
    AllCoveredAppend(0, step, p.made, Made(p, step, last), count);
  }

  /** The one-shot output ends where the source does. */
  lemma FirstUncovered(view: View, f: Reader, step: nat, count: nat, capacity: nat, n: nat)
    requires Windows(view, f, count) && AllCovered(0, step, n, count) && n <= capacity
    requires !Covered(Advance(0, step, n), count)
    ensures |OneShot(view, step, count, capacity)| == n
  {
    CountIs(0, step, count, capacity, n);
    OneShotIs(view, f, count, step, capacity);
  }

  // ---------------------------------------------------------------- sources

  datatype Source = Source(samples: seq<s16>, channels: Channels, count: nat, mode: Mode) {
    predicate Valid() {
      Frames(samples, channels, count)
    }

    function At(pos: nat, channel: nat): (r: int)
      requires Valid() && Covered(pos, count) && channel < channels
    {
      Interpolate(samples, channels, count, mode, pos, channel)
    }

    function FrameAt(pos: nat): (r: Frame)
      requires Valid() && Covered(pos, count)
    {
      if channels == 1 then [At(pos, 0)] else [At(pos, 0), At(pos, 1)]
    }

    /** The part of the source a call sees. */
    function Window(from: nat, frames: nat): (r: Source)
      requires Valid() && from + frames <= count
      ensures r.Valid() && r.channels == channels && r.count == frames
    {
      Source(samples[Offset(from, channels)..Offset(from + frames, channels)], channels, frames, mode)
    }

    /** FrameAt for every position; nothing where a neighbour is missing. */
    function Read(): (r: Reader) {
      (pos: nat) => if Valid() && Covered(pos, count) then FrameAt(pos) else []
    }

    function Views(): (r: View) {
      (from: nat, frames: nat) =>
        if Valid() && from + frames <= count then Window(from, frames).Read() else (pos: nat) => []
    }

    /** Interpolating inside a window is interpolating in the source, that many frames further on. */
    lemma WindowFrame(from: nat, frames: nat, pos: nat)
      requires Valid() && from + frames <= count && Covered(pos, frames)
      ensures Covered(Whole(from) + pos, count)
      ensures Window(from, frames).FrameAt(pos) == FrameAt(Whole(from) + pos)
    {
      PositionParts(from, pos);
      CoveredIndex(pos, frames);
    }

    lemma ViewReads(from: nat, frames: nat, pos: nat)
      requires Valid() && from + frames <= count && Covered(pos, frames)
      ensures Views()(from, frames)(pos) == Read()(Whole(from) + pos)
    {
      WindowFrame(from, frames, pos);
      ViewIsWindow(from, frames);
      Window(from, frames).Reads(pos);
      Reads(Whole(from) + pos);
    }

    lemma Reads(pos: nat)
      requires Valid() && Covered(pos, count)
      ensures Read()(pos) == FrameAt(pos)
    {
    }

    lemma ViewIsWindow(from: nat, frames: nat)
      requires Valid() && from + frames <= count
      ensures Views()(from, frames) == Window(from, frames).Read()
    {
    }

    lemma ViewsAreWindows()
      requires Valid()
      ensures Windows(Views(), Read(), count)
    {
      forall from: nat, frames: nat, pos: nat | from + frames <= count && Covered(pos, frames)
        ensures Views()(from, frames)(pos) == Read()(Whole(from) + pos)
      {
        ViewReads(from, frames, pos);
      }
    }

    /** However the source is cut into calls, the output is a prefix of the one-shot output. */
    lemma ChunkIndependence(step: nat, calls: seq<Call>, capacity: nat)
      requires Valid() && Legal(START, step, count, calls)
      requires AfterAll(START, step, calls).made <= capacity
      ensures var k := AfterAll(START, step, calls).made;
              && k <= |OneShot(Views(), step, count, capacity)|
              && RunFrames(Views(), START, step, calls) == OneShot(Views(), step, count, capacity)[..k]
    {
      ViewsAreWindows();
      RunIsPrefix(Views(), Read(), count, step, calls, capacity);
    }

    /** Output frame k of any run is the interpolation at k steps. */
    lemma RunFrameAt(step: nat, calls: seq<Call>, k: nat)
      requires Valid() && Legal(START, step, count, calls) && k < |RunFrames(Views(), START, step, calls)|
      ensures Covered(k * step, count) && RunFrames(Views(), START, step, calls)[k] == FrameAt(k * step)
    {
      ViewsAreWindows();
      RunFrameIs(Views(), Read(), count, step, calls, k);
    }

    /** What Process stores is what the run counts on: one call's frames, read back from the output samples. */
    lemma {:induction false} StoredFrames(target: seq<s16>, start: nat, step: nat, n: nat)
      requires Valid() && Offset(n, channels) <= |target|
      requires forall j: nat :: j < n ==> FrameIs(samples, channels, count, mode, target, j, Advance(start, step, j))
      ensures TargetFrames(target, channels, n) == FramesFrom(Read(), start, step, n)
    {
      if n > 0 {
        var j := n - 1;
        StoredFrames(target, start, step, j);
        StoredFrame(target, j, Advance(start, step, j));
      }
    }

    lemma StoredFrame(target: seq<s16>, k: nat, pos: nat)
      requires Valid() && FrameIs(samples, channels, count, mode, target, k, pos)
      ensures TargetFrame(target, channels, k) == Read()(pos)
    {
      assert Resampler.At(target, channels, k, 0) == At(pos, 0);
      assert channels == 2 ==> Resampler.At(target, channels, k, 1) == At(pos, 1);
    }

    // -------------------------------------------------------------- order

    /** The samples of one channel never decrease (or, with `down`, never increase). */
    ghost predicate Ordered(channel: nat, down: bool)
      requires Valid() && channel < channels
    {
      forall i: nat :: i + 1 < count ==> InOrder(At'(i, channel), At'(i + 1, channel), down)
    }

    function At'(frame: nat, channel: nat): (r: int)
      requires Valid() && frame < count && channel < channels
    {
      Resampler.At(samples, channels, frame, channel)
    }

    lemma {:induction false} OrderedApart(channel: nat, down: bool, i: nat, j: nat)
      requires Valid() && channel < channels && Ordered(channel, down) && i <= j < count
      ensures InOrder(At'(i, channel), At'(j, channel), down)
      decreases j
    {
      if i < j {
        OrderedApart(channel, down, i, j - 1);
        var k := j - 1;
        assert InOrder(At'(k, channel), At'(k + 1, channel), down);
      }
    }

    lemma InterpolationOrder(channel: nat, down: bool, pos: nat, pos': nat)
      requires Valid() && channel < channels && Ordered(channel, down)
      requires pos <= pos' && Covered(pos', count)
      ensures Covered(pos, count) && InOrder(At(pos, channel), At(pos', channel), down)
    {
      var i, i' := pos / 0x1_0000_0000, pos' / 0x1_0000_0000;
      var a, b := At'(i, channel), At'(i + 1, channel);
      var a', b' := At'(i', channel), At'(i' + 1, channel);
      OrderedApart(channel, down, i, i + 1);
      OrderedApart(channel, down, i', i' + 1);
      if i == i' {
        SampleRises(mode, a, b, pos % 0x1_0000_0000, pos' % 0x1_0000_0000);
      } else {
        OrderedApart(channel, down, i + 1, i');
        SampleBetween(mode, a, b, pos % 0x1_0000_0000);
        SampleBetween(mode, a', b', pos' % 0x1_0000_0000);
      }
    }

    /** A channel that never decreases (increases) comes out the same way, across every chunk boundary. */
    lemma RunKeepsOrder(step: nat, calls: seq<Call>, channel: nat, down: bool, k: nat, k': nat)
      requires Valid() && channel < channels && Ordered(channel, down)
      requires Legal(START, step, count, calls) && k <= k' < |RunFrames(Views(), START, step, calls)|
      ensures var r := RunFrames(Views(), START, step, calls);
              && |r[k]| == channels == |r[k']| && InOrder(r[k][channel], r[k'][channel], down)
    {
      RunFrameAt(step, calls, k);
      RunFrameAt(step, calls, k');
      MultipliesRise(k, k', step);
      InterpolationOrder(channel, down, k * step, k' * step);
    }
  }

  /** Whole frames and fractions of a shifted position. */
  lemma PositionParts(from: nat, pos: nat)
    ensures (Whole(from) + pos) / 0x1_0000_0000 == from + pos / 0x1_0000_0000
    ensures (Whole(from) + pos) % 0x1_0000_0000 == pos % 0x1_0000_0000
  {
  }

  /** The first `n` frames of interleaved samples. */
  function TargetFrames(target: seq<s16>, channels: Channels, n: nat): (r: seq<Frame>)
    requires Offset(n, channels) <= |target|
  {
    if n == 0 then [] else TargetFrames(target, channels, n - 1) + [TargetFrame(target, channels, n - 1)]
  }

  function TargetFrame(target: seq<s16>, channels: Channels, k: nat): (r: Frame)
    requires Offset(k + 1, channels) <= |target|
  {
    if channels == 1 then [Resampler.At(target, channels, k, 0)]
    else [Resampler.At(target, channels, k, 0), Resampler.At(target, channels, k, 1)]
  }

  predicate InOrder(a: int, b: int, down: bool) {
    if down then b <= a else a <= b
  }

  lemma {:induction false} AdvanceShift(base: nat, start: nat, step: nat, n: nat)
    ensures Advance(base + start, step, n) == base + Advance(start, step, n)
  {
    if n > 0 {
      AdvanceShift(base, start, step, n - 1);
    }
  }

  lemma {:induction false} AllCoveredShift(from: nat, frames: nat, start: nat, step: nat, n: nat, count: nat)
    requires from + frames <= count && AllCovered(start, step, n, frames)
    ensures AllCovered(Whole(from) + start, step, n, count)
  {
    if n > 0 {
      AllCoveredShift(from, frames, start, step, n - 1, count);
      AdvanceShift(Whole(from), start, step, n - 1);
    }
  }

  lemma {:induction false} AllCoveredAppend(start: nat, step: nat, m: nat, n: nat, count: nat)
    requires AllCovered(start, step, m, count) && AllCovered(Advance(start, step, m), step, n, count)
    ensures AllCovered(start, step, m + n, count)
  {
    if n > 0 {
      AllCoveredAppend(start, step, m, n - 1, count);
      AdvanceTwice(start, step, m, n - 1);
    }
  }

  /** Frames given back plus the carried phase are exactly as many steps as outputs made. */
  predicate OnTrack(p: Progress, step: nat) {
    Whole(p.taken) + p.phase == Advance(0, step, p.made)
  }

  lemma MadeCovered(p: Progress, step: nat, call: Call)
    ensures AllCovered(p.phase, step, Made(p, step, call), call.frames)
  {
    CountMeans(p.phase, step, call.frames, call.capacity);
  }

  /** Outputs already made fit the one-shot count. */
  lemma PrefixCovered(step: nat, k: nat, count: nat, capacity: nat)
    requires AllCovered(0, step, k, count) && k <= capacity
    ensures k <= Count(0, step, count, capacity)
    ensures Made(START, step, Call(count, capacity)) == Count(0, step, count, capacity)
  {
    var n := Count(0, step, count, capacity);
    CountMeans(0, step, count, capacity);
    if n < k {
      CoveredAt(0, step, k, count, n);
    }
  }

  lemma StaysOnTrack(p: Progress, step: nat, call: Call)
    requires OnTrack(p, step)
    ensures OnTrack(After(p, step, call), step) && p.made <= After(p, step, call).made
    ensures After(p, step, call).made == p.made + Made(p, step, call)
  {
    if call.frames >= 2 && call.capacity > 0 {
      var n := Made(p, step, call);
      AdvanceShift(Whole(p.taken), p.phase, step, n);
      AdvanceTwice(0, step, p.made, n);
    }
  }

  lemma MultipliesRise(k: nat, k': nat, step: nat)
    requires k <= k'
    ensures k * step <= k' * step
  {
  }

  lemma Remainder(n: nat, d: nat, k: nat, q: nat, r: nat)
    requires n == q * d + r && r < d && k > 0
    ensures 0 <= k * n - (k * q) * d < k * d
  {
    assert k * n == k * (q * d) + k * r;
    assert k * (q * d) == (k * q) * d;
    assert k * r < k * d;
  }

  /** After k outputs the source position lags the ideal k * input / output by less than k / 2^32 frame. */
  lemma BoundedDrift(input_rate: u32, output_rate: u32, k: nat)
    requires output_rate > 0 && k > 0
    ensures var lag := k * input_rate * TWO32 - Advance(0, input_rate * TWO32 / output_rate, k) * output_rate;
            0 <= lag < k * output_rate
  {
    var n, d: nat := input_rate * TWO32, output_rate;
    var step, rest := n / d, n % d;
    AdvanceIs(0, step, k);
    Regroup(k, input_rate, TWO32);
    assert n == step * d + rest;
    Remainder(n, d, k, step, rest);
  }

  lemma Regroup(a: nat, b: nat, c: nat)
    ensures a * b * c == a * (b * c)
  {
  }
}
