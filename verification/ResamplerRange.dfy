/** Which rates keep every call of every stream inside the converter's 64-bit phase and 32-bit frame index. */
module ResamplerRange {
  import opened Machine
  import opened Resampler
  import opened ResamplerStream

  /** Every call of the stream stays in range. */
  predicate StreamInRange(p: Progress, step: nat, calls: seq<Call>)
    decreases calls
  {
    |calls| == 0
    || (&& InRange(p.phase, step, calls[0].frames, calls[0].capacity)
        && StreamInRange(After(p, step, calls[0]), step, calls[1..]))
  }

  /** No call is given more than `longest` frames. */
  predicate AtMost(calls: seq<Call>, longest: nat) {
    forall k :: 0 <= k < |calls| ==> calls[k].frames <= longest
  }

  lemma {:induction false} SafeRates(input_rate: u32, output_rate: u32, longest: nat, p: Progress, calls: seq<Call>)
    requires output_rate > 0 && longest <= MAX_SAMPLES && AtMost(calls, longest)
    requires output_rate >= 2 || input_rate + longest <= TWO32
    requires p.phase < Max(TWO32, input_rate * TWO32 / output_rate)
    ensures StreamInRange(p, input_rate * TWO32 / output_rate, calls)
    decreases calls
  {
    if |calls| > 0 {
      var step, call := input_rate * TWO32 / output_rate, calls[0];
      RatesInRange(input_rate, output_rate, longest, p.phase, call.frames, call.capacity);
      if call.frames >= 2 && call.capacity > 0 {
        CarriedPhase(p.phase, step, call.frames, call.capacity);
      }
      SafeRates(input_rate, output_rate, longest, After(p, step, call), calls[1..]);
    }
  }

  // ---------------------------------------------------------------- the rates that fail

  /** A call on two frames with room for one output: it gives one frame back. */
  const SINK: Call := Call(2, 1)

  function Sinks(n: nat): (calls: seq<Call>)
    ensures |calls| == n && AtMost(calls, 2)
  {
    if n == 0 then [] else [SINK] + Sinks(n - 1)
  }

  /** At output rate 1 the first output puts the phase `input_rate` frames on. */
  lemma FirstCall(input_rate: u32)
    requires input_rate >= 2
    ensures After(START, Whole(input_rate), SINK) == Progress(1, Whole(input_rate - 1), 1)
  {
    var step := Whole(input_rate);
    assert Count(step, step, 2, 0) == 0;
    assert Advance(0, step, 1) == Advance(0, step, 0) + step;
    assert step / 0x1_0000_0000 == input_rate;
  }

  lemma OneSink(p: Progress, step: nat, frame: nat)
    requires p.phase == Whole(frame) && frame > 0
    ensures After(p, step, SINK) == Progress(p.taken + 1, Whole(frame - 1), p.made)
  {
    assert Whole(frame) / 0x1_0000_0000 == frame;
  }

  lemma {:induction false} AfterSinks(p: Progress, step: nat, frame: nat, n: nat, last: Call)
    requires p.phase == Whole(frame) && n <= frame && last.frames > 0
    requires StreamInRange(p, step, Sinks(n) + [last])
    ensures InRange(Whole(frame - n), step, last.frames, last.capacity)
    decreases n
  {
    var calls := Sinks(n) + [last];
    if n > 0 {
      OneSink(p, step, frame);
      assert calls[0] == SINK && calls[1..] == Sinks(n - 1) + [last];
      AfterSinks(After(p, step, SINK), step, frame - 1, n - 1, last);
    }
  }

  /** From the last covered whole position of a longest call, a step this long leaves the range. */
  lemma LastStepLeaves(input_rate: u32, longest: nat)
    requires 2 <= longest <= MAX_SAMPLES && input_rate + longest > TWO32
    ensures !InRange(Whole(longest - 2), Whole(input_rate), longest, 2)
  {
    var start, step := Whole(longest - 2), Whole(input_rate);
    var next := start + step;
    assert next == Whole(longest - 2 + input_rate) && next / 0x1_0000_0000 == longest - 2 + input_rate;
    assert Covered(start, longest) && !Covered(next, longest);
    assert Count(next, step, longest, 1) == 0;
    assert Count(start, step, longest, 2) == 1;
    assert Advance(start, step, 1) == Advance(start, step, 0) + step;
  }

  /** The stream that fails: one output, single frames until the phase has sunk far enough, and a longest call. */
  function FailingStream(input_rate: u32, longest: nat): (calls: seq<Call>)
    requires 2 <= longest <= MAX_SAMPLES && input_rate + longest > TWO32
    ensures AtMost(calls, longest)
  {
    [SINK] + (Sinks(input_rate + 1 - longest) + [Call(longest, 2)])
  }

  lemma FailingStreamFails(input_rate: u32, longest: nat)
    requires 2 <= longest <= MAX_SAMPLES && input_rate + longest > TWO32
    ensures !StreamInRange(START, Whole(input_rate), FailingStream(input_rate, longest))
  {
    var step, n, last := Whole(input_rate), input_rate + 1 - longest, Call(longest, 2);
    var calls := FailingStream(input_rate, longest);
    if StreamInRange(START, step, calls) {
      assert calls[0] == SINK && calls[1..] == Sinks(n) + [last];
      FirstCall(input_rate);
      AfterSinks(After(START, step, SINK), step, input_rate - 1, n, last);
      LastStepLeaves(input_rate, longest);
    }
  }

  // ---------------------------------------------------------------- the exact condition

  /**
   With calls on at most `longest` frames, every call of every stream stays in range if and only if the output rate is
   at least 2 or the input rate is at most 2^32 less the longest call. For one channel, memory makes that 2^31.
   */
  lemma RatesExactly(input_rate: u32, output_rate: u32, longest: nat)
    requires output_rate > 0 && 2 <= longest <= MAX_SAMPLES
    ensures (forall calls: seq<Call> :: AtMost(calls, longest) ==>
              StreamInRange(START, input_rate * TWO32 / output_rate, calls)) <==>
            (output_rate >= 2 || input_rate + longest <= TWO32)
  {
    var step := input_rate * TWO32 / output_rate;
    if output_rate >= 2 || input_rate + longest <= TWO32 {
      forall calls: seq<Call> | AtMost(calls, longest) ensures StreamInRange(START, step, calls) {
        SafeRates(input_rate, output_rate, longest, START, calls);
      }
    } else {
      assert step == Whole(input_rate);
      FailingStreamFails(input_rate, longest);
    }
  }
}
