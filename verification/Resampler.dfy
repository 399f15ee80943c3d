/** The sample-rate converter: Q32 step division, interpolation, and one processing call. */
module Resampler {
  import opened Machine

  const MAX_SAMPLES: nat := 0x8000_0000   // 16-bit samples that fit a 32-bit address space

  type s16 = x: int | -0x8000 <= x < 0x8000

  datatype Mode = Nearest | Linear

  // ---------------------------------------------------------------- bit-serial division

  function Pow2(n: nat): (p: nat)
    ensures p > 0
  {
    if n == 0 then 1 else 2 * Pow2(n - 1)
  }

  /** Pow2(n) is 2 to the 64 for n = 64, by six squarings. */
  lemma Pow2Of64(n: nat)
    requires n == 64
    ensures Pow2(n) == TWO64
  {
    Squared(1, 2);
    Squared(2, 4);
    Squared(4, 16);
    Squared(8, 256);
    Squared(16, 0x1_0000);
    Squared(32, 0x1_0000_0000);
  }

  lemma Squared(n: nat, p: nat)
    requires Pow2(n) == p
    ensures Pow2(n + n) == p * p
  {
    Pow2Sum(n, n);
  }

  lemma {:induction false} Pow2Sum(a: nat, b: nat)
    ensures Pow2(a + b) == Pow2(a) * Pow2(b)
  {
    if a > 0 {
      Pow2Sum(a - 1, b);
    }
  }

  /** The prefix of `n` above bit `bit` is twice the prefix above the next bit, plus that bit. */
  lemma NextBit(n: nat, bit: nat)
    ensures n / Pow2(bit) == 2 * (n / Pow2(bit + 1)) + n / Pow2(bit) % 2
  {
    var p := Pow2(bit);
    assert n / (p * 2) == n / p / 2 by {
      var q, r := n / p, n % p;
      assert n == q * p + r && q == 2 * (q / 2) + q % 2;
      assert n == (q / 2) * (2 * p) + ((q % 2) * p + r);
      DivisionUnique(n, 2 * p, q / 2, (q % 2) * p + r);
    }
  }

  lemma DivisionUnique(n: nat, d: nat, q: nat, r: nat)
    requires d > 0 && n == q * d + r && r < d
    ensures n / d == q && n % d == r
  {
    var q', r' := n / d, n % d;
    assert n == q' * d + r';
    if q < q' {
      NextMultiple(q, q', d);
    } else if q' < q {
      NextMultiple(q', q, d);
    }
  }

  lemma {:induction false} NextMultiple(a: nat, b: nat, d: nat)
    requires a < b
    ensures a * d + d <= b * d
  {
    assert b * d == (b - 1) * d + d;
    if a < b - 1 {
      NextMultiple(a, b - 1, d);
    }
  }

  /** Long division down to the bit with weight `p`: the quotient bits found so far, as a number, are `high`. */
  ghost predicate Divided(n: nat, d: nat, p: nat, high: nat, remainder: nat, quotient: nat) {
    p > 0 && remainder < d && n / p == high * d + remainder && quotient == high * p
  }

  lemma DividedDouble(n: nat, d: nat, p: nat, high: nat, remainder: nat, quotient: nat, next: nat)
    requires Divided(n, d, 2 * p, high, remainder, quotient) && p > 0
    requires n / p == 2 * (n / (2 * p)) + next - 2 * remainder
    ensures next < d ==> Divided(n, d, p, 2 * high, next, quotient)
    ensures d <= next < 2 * d ==> Divided(n, d, p, 2 * high + 1, next - d, quotient + p)
  {
    assert 2 * (high * d) == (2 * high) * d;
    assert (2 * high + 1) * d == (2 * high) * d + d;
    assert high * (2 * p) == (2 * high) * p;
    assert (2 * high + 1) * p == (2 * high) * p + p;
  }

  lemma Scaled(a: nat, b: nat, c: nat)
    requires a <= b
    ensures a * c <= b * c && a * c <= c * b
  {
  }

  lemma QuotientBound(n: nat, d: nat, p: nat, high: nat, remainder: nat, quotient: nat)
    requires Divided(n, d, p, high, remainder, quotient)
    ensures quotient <= n
  {
    Scaled(1, d, high);
    Scaled(high, n / p, p);
    assert n == (n / p) * p + n % p;
  }

  /** One round of long division. */
  method DivideRound(n: u64, d: u32, bit: nat, ghost high: nat, remainder: u64, quotient: u64)
    returns (ghost newHigh: nat, newRemainder: u64, newQuotient: u64)
    requires Divided(n, d, Pow2(bit + 1), high, remainder, quotient)
    ensures Divided(n, d, Pow2(bit), newHigh, newRemainder, newQuotient)
  {
    NextBit(n, bit);
    var next: u64 := remainder * 2 + n / Pow2(bit) % 2;
    DividedDouble(n, d, Pow2(bit), high, remainder, quotient, next);
    newHigh, newRemainder, newQuotient := 2 * high, next, quotient;
    if next >= d {
      newHigh, newRemainder := 2 * high + 1, next - d;
      QuotientBound(n, d, Pow2(bit), newHigh, newRemainder, quotient + Pow2(bit));
      newQuotient := quotient + Pow2(bit);
    }
  }

  /** Long division, one quotient bit per round; exact for every dividend and nonzero divisor. */
  method DivU64U32(numerator: u64, denominator: u32) returns (quotient: u64)
    ensures denominator == 0 ==> quotient == 0
    ensures denominator > 0 ==> quotient == numerator / denominator
  {
    if denominator == 0 {
      return 0;
    }
    quotient := 0;
    ghost var high: nat := 0;
    var remainder: u64 := 0;
    var bit: int := 63;
    Pow2Of64(bit + 1);
    while bit >= 0
      invariant -1 <= bit <= 63
      invariant Divided(numerator, denominator, Pow2(bit + 1), high, remainder, quotient)
    {
      high, remainder, quotient := DivideRound(numerator, denominator, bit, high, remainder, quotient);
      bit := bit - 1;
    }
    DivisionUnique(numerator, denominator, high, remainder);
  }

  // ---------------------------------------------------------------- interpolation

  /** The value between neighbours `a` and `b` at `fraction` / 2^32; the shift is an arithmetic one. */
  function Sample(mode: Mode, a: s16, b: s16, fraction: u32): (r: int) {
    match mode
    case Nearest => if fraction < 0x8000_0000 then a else b
    case Linear => a + ((b - a) * (fraction / 0x1_0000)) / 0x1_0000
  }

  /** Truncation to 16 bits, two's complement. */
  function ToS16(x: int): (r: s16) {
    (x + 0x8000) % 0x1_0000 - 0x8000
  }

  lemma ScaledDelta(delta: int, f: nat)
    requires f < 0x1_0000
    ensures delta >= 0 ==> 0 <= (delta * f) / 0x1_0000 <= delta
    ensures delta <= 0 ==> delta <= (delta * f) / 0x1_0000 <= 0
  {
    if delta >= 0 {
      assert 0 <= delta * f <= delta * 0x1_0000;
    } else {
      assert delta * 0x1_0000 <= delta * f <= 0;
    }
  }

  /** Every output lies between its two source neighbours, so the 16-bit store loses nothing. */
  lemma SampleBetween(mode: Mode, a: s16, b: s16, fraction: u32)
    ensures Min(a, b) <= Sample(mode, a, b, fraction) <= Max(a, b)
    ensures ToS16(Sample(mode, a, b, fraction)) == Sample(mode, a, b, fraction)
  {
    ScaledDelta(b - a, fraction / 0x1_0000);
  }

  /** The output `r` lies where the mode says between neighbours `a` and `b`, `fraction` / 2^32 of the way. */
  predicate Placed(mode: Mode, a: int, b: int, fraction: u32, r: int) {
    match mode
    case Nearest => r == if fraction < TWO32 - fraction then a else b
    case Linear =>
      // exact on the 65536ths, rounded down; less than 1 above and less than 2 below the line at the full fraction
      && 0 <= 0x1_0000 * a + (b - a) * (fraction / 0x1_0000) - 0x1_0000 * r < 0x1_0000
      && -0x1_0000_0000 < 0x1_0000_0000 * (a - r) + (b - a) * fraction < 0x2_0000_0000
  }

  lemma SamplePlaced(mode: Mode, a: s16, b: s16, fraction: u32)
    ensures Placed(mode, a, b, fraction, Sample(mode, a, b, fraction))
  {
    if mode == Linear {
      var f, g := fraction / 0x1_0000, fraction % 0x1_0000;
      var p := (b - a) * f;
      var r := a + p / 0x1_0000;
      assert fraction == f * 0x1_0000 + g;
      FullFraction(b - a, f, g, fraction);
      SmallProduct(b - a, g);
      assert p == p / 0x1_0000 * 0x1_0000 + p % 0x1_0000;
    }
  }

  lemma FullFraction(d: int, f: nat, g: nat, fraction: nat)
    requires fraction == f * 0x1_0000 + g
    ensures d * fraction == (d * f) * 0x1_0000 + d * g
  {
  }

  lemma SmallProduct(d: int, g: nat)
    requires -0x1_0000 < d < 0x1_0000
    ensures -0xFFFF * g <= d * g <= 0xFFFF * g
  {
    if d >= 0 {
      ProductBelow(d, 0xFFFF, g);
    } else {
      ProductBelow(-d, 0xFFFF, g);
    }
  }

  lemma ProductBelow(d: nat, e: nat, g: nat)
    requires d <= e
    ensures 0 <= d * g <= e * g && (0 - d) * g == 0 - d * g
  {
  }

  lemma ScaleRises(delta: int, f: nat, g: nat)
    requires f <= g
    ensures delta >= 0 ==> (delta * f) / 0x1_0000 <= (delta * g) / 0x1_0000
    ensures delta <= 0 ==> (delta * g) / 0x1_0000 <= (delta * f) / 0x1_0000
  {
    var x, y := delta * f, delta * g;
    if delta >= 0 {
      assert x <= y;
    }
    if delta <= 0 {
      assert y <= x;
    }
  }

  lemma SampleRises(mode: Mode, a: s16, b: s16, f: u32, g: u32)
    requires f <= g
    ensures a <= b ==> Sample(mode, a, b, f) <= Sample(mode, a, b, g)
    ensures b <= a ==> Sample(mode, a, b, g) <= Sample(mode, a, b, f)
  {
    ScaleRises(b - a, f / 0x1_0000, g / 0x1_0000);
  }

  type Channels = c: int | 1 <= c <= 2 witness 1

  /** Sample index of the first channel of a frame: frame * channels, for one or two channels. */
  function Offset(frame: nat, channels: Channels): (r: nat) {
    if channels == 1 then frame else 2 * frame
  }

  /** Interleaved samples that hold at least `count` whole frames. */
  predicate Frames(samples: seq<s16>, channels: Channels, count: nat) {
    Offset(count, channels) <= |samples|
  }

  function At(samples: seq<s16>, channels: Channels, frame: nat, channel: nat): (r: s16)
    requires Offset(frame + 1, channels) <= |samples| && channel < channels
  {
    samples[Offset(frame, channels) + channel]
  }

  /** The Q32 position of a whole frame. */
  function Whole(frame: nat): (r: nat) {
    frame * 0x1_0000_0000
  }

  /** Both neighbours of a Q32 position are among the first `frames` source frames. */
  predicate Covered(position: nat, frames: nat) {
    position + 0x1_0000_0000 < Whole(frames)
  }

  /** A position is covered when the index of its right neighbour is below the frame count. */
  lemma CoveredIndex(position: nat, frames: nat)
    ensures Covered(position, frames) <==> position / 0x1_0000_0000 + 1 < frames
  {
  }

  /** Interpolation at Q32 position `pos` of a source of `count` frames. */
  function Interpolate(samples: seq<s16>, channels: Channels, count: nat, mode: Mode, pos: nat, channel: nat): (r: int)
    requires Frames(samples, channels, count) && Covered(pos, count) && channel < channels
  {
    CoveredIndex(pos, count);
    var left := pos / 0x1_0000_0000;
    Sample(mode, At(samples, channels, left, channel), At(samples, channels, left + 1, channel), pos % 0x1_0000_0000)
  }

  /** Frame `frame` of `target` is the interpolation of the source at `pos`, in every channel. */
  ghost predicate FrameIs(source: seq<s16>, channels: Channels, count: nat, mode: Mode, target: seq<s16>,
                          frame: nat, pos: nat)
    requires Frames(source, channels, count)
  {
    && Covered(pos, count)
    && Offset(frame + 1, channels) <= |target|
    && forall c: nat :: c < channels ==>
         At(target, channels, frame, c) == Interpolate(source, channels, count, mode, pos, c)
  }

  /** Sample `channel` of frame `frame` in interleaved samples, written out. */
  function Interleaved(samples: seq<s16>, channels: Channels, frame: nat, channel: nat): (r: s16)
    requires (if channels == 1 then frame else 2 * frame + channel) < |samples|
  {
    if channels == 1 then samples[frame] else samples[2 * frame + channel]
  }

  /** Output frame `frame` lies between the two source frames around `pos`, channel by channel. */
  ghost predicate FramePlaced(source: seq<s16>, channels: Channels, mode: Mode, target: seq<s16>,
                              frame: nat, pos: nat)
  {
    var left := pos / 0x1_0000_0000;
    && Offset(left + 2, channels) <= |source| && Offset(frame + 1, channels) <= |target|
    && forall c: nat :: c < channels ==>
         Placed(mode, Interleaved(source, channels, left, c), Interleaved(source, channels, left + 1, c),
                pos % 0x1_0000_0000, Interleaved(target, channels, frame, c))
  }

  lemma ChannelSample(source: seq<s16>, channels: Channels, count: nat, mode: Mode, target: seq<s16>,
                      frame: nat, pos: nat, c: nat)
    requires Frames(source, channels, count) && FrameIs(source, channels, count, mode, target, frame, pos)
    requires c < channels
    ensures var left := pos / 0x1_0000_0000;
            && Offset(left + 2, channels) <= |source|
            && Interleaved(target, channels, frame, c)
               == Sample(mode, Interleaved(source, channels, left, c), Interleaved(source, channels, left + 1, c),
                         pos % 0x1_0000_0000)
  {
    CoveredIndex(pos, count);
    assert At(target, channels, frame, c) == Interpolate(source, channels, count, mode, pos, c);
  }

  lemma FrameIsPlaced(source: seq<s16>, channels: Channels, count: nat, mode: Mode, target: seq<s16>,
                      frame: nat, pos: nat)
    requires Frames(source, channels, count) && FrameIs(source, channels, count, mode, target, frame, pos)
    ensures FramePlaced(source, channels, mode, target, frame, pos)
  {
    var left, fraction := pos / 0x1_0000_0000, pos % 0x1_0000_0000;
    ChannelSample(source, channels, count, mode, target, frame, pos, 0);
    forall c: nat | c < channels
      ensures Placed(mode, Interleaved(source, channels, left, c), Interleaved(source, channels, left + 1, c),
                     fraction, Interleaved(target, channels, frame, c))
    {
      ChannelSample(source, channels, count, mode, target, frame, pos, c);
      SamplePlaced(mode, Interleaved(source, channels, left, c), Interleaved(source, channels, left + 1, c), fraction);
    }
  }

  // ---------------------------------------------------------------- one call

  /** The position `n` steps on. */
  function Advance(phase: nat, step: nat, n: nat): (r: nat) {
    if n == 0 then phase else Advance(phase, step, n - 1) + step
  }

  lemma {:induction false} AdvanceIs(phase: nat, step: nat, n: nat)
    ensures Advance(phase, step, n) == phase + n * step
  {
    if n > 0 {
      AdvanceIs(phase, step, n - 1);
    }
  }

  lemma {:induction false} AdvanceTwice(phase: nat, step: nat, m: nat, n: nat)
    ensures Advance(Advance(phase, step, m), step, n) == Advance(phase, step, m + n)
  {
    if n > 0 {
      AdvanceTwice(phase, step, m, n - 1);
    }
  }

  lemma {:induction false} AdvanceOne(phase: nat, step: nat, n: nat)
    requires n > 0
    ensures Advance(phase, step, n) == Advance(phase + step, step, n - 1)
    ensures Advance(phase, step, n) == Advance(phase, step, n - 1) + step
  {
    AdvanceTwice(phase, step, 1, n - 1);
  }

  /** Outputs a call makes: until the capacity is reached or the right neighbour is missing. */
  function Count(phase: nat, step: nat, frames: nat, capacity: nat): (n: nat)
    ensures n <= capacity
    decreases capacity
  {
    if capacity == 0 || !Covered(phase, frames) then 0
    else 1 + Count(phase + step, step, frames, capacity - 1)
  }

  /** The first `n` positions from `start` on are covered. */
  predicate AllCovered(start: nat, step: nat, n: nat, frames: nat) {
    n == 0 || (AllCovered(start, step, n - 1, frames) && Covered(Advance(start, step, n - 1), frames))
  }

  lemma {:induction false} CoveredAt(start: nat, step: nat, n: nat, frames: nat, j: nat)
    requires AllCovered(start, step, n, frames) && j < n
    ensures Covered(Advance(start, step, j), frames)
  {
    if j < n - 1 {
      CoveredAt(start, step, n - 1, frames, j);
    }
  }

  lemma {:induction false} AllCoveredFirst(start: nat, step: nat, n: nat, frames: nat)
    requires n > 0
    ensures AllCovered(start, step, n, frames) <==>
            Covered(start, frames) && AllCovered(start + step, step, n - 1, frames)
  {
    if n > 1 {
      AllCoveredFirst(start, step, n - 1, frames);
      AdvanceOne(start, step, n - 1);
    }
  }

  /** Count is the number of covered positions, as far as the capacity goes. */
  lemma {:induction false} CountMeans(phase: nat, step: nat, frames: nat, capacity: nat)
    ensures var n := Count(phase, step, frames, capacity);
            && AllCovered(phase, step, n, frames)
            && (n == capacity || !Covered(Advance(phase, step, n), frames))
    decreases capacity
  {
    var n := Count(phase, step, frames, capacity);
    if n > 0 {
      CountMeans(phase + step, step, frames, capacity - 1);
      AllCoveredFirst(phase, step, n, frames);
      AdvanceOne(phase, step, n);
    }
  }

  lemma {:induction false} CountIs(phase: nat, step: nat, frames: nat, capacity: nat, n: nat)
    requires n <= capacity && AllCovered(phase, step, n, frames)
    requires n == capacity || !Covered(Advance(phase, step, n), frames)
    ensures Count(phase, step, frames, capacity) == n
    decreases n
  {
    if n > 0 {
      AllCoveredFirst(phase, step, n, frames);
      AdvanceOne(phase, step, n);
      CountIs(phase + step, step, frames, capacity - 1, n - 1);
    }
  }

  /** Source frames a call gives back: one is kept as the next left neighbour. */
  function Consumed(position: nat, frames: nat): (c: nat)
    requires frames > 0
  {
    if position / 0x1_0000_0000 >= frames then frames - 1 else position / 0x1_0000_0000
  }

  function Left(position: nat, frames: nat): (r: nat)
    requires frames > 0
  {
    position - Whole(Consumed(position, frames))
  }

  /** What is given back is the most whole frames that the position has passed, less the one that is kept. */
  lemma ConsumedMost(position: nat, frames: nat, c: nat)
    requires frames > 0
    ensures c <= Consumed(position, frames) <==> c < frames && Whole(c) <= position
    ensures Whole(Consumed(position, frames)) + Left(position, frames) == position
  {
  }

  /** The phase carried over stays below one frame, or below one step when steps are longer than that. */
  lemma CarriedPhase(phase: nat, step: nat, frames: nat, capacity: nat)
    requires frames >= 2 && phase < Max(TWO32, step)
    ensures Left(Advance(phase, step, Count(phase, step, frames, capacity)), frames) < Max(TWO32, step)
  {
    var n := Count(phase, step, frames, capacity);
    CountMeans(phase, step, frames, capacity);
    var position := Advance(phase, step, n);
    if position / 0x1_0000_0000 >= frames && n > 0 {
      AdvanceOne(phase, step, n);
      CoveredAt(phase, step, n, frames, n - 1);
    }
  }

  // ---------------------------------------------------------------- the same loop in machine arithmetic

  /** The test at the head of the output loop: the index of the right neighbour, in 32 bits, is a frame's. */
  predicate GoesOn(position: u64, frames: u32) {
    (position / 0x1_0000_0000 + 1) % 0x1_0000_0000 < frames
  }

  /** The output loop as it runs: how many outputs it makes, and the 64-bit phase it ends with. */
  function Loop(position: u64, step: u64, frames: u32, capacity: nat): (r: (nat, u64))
    decreases capacity
  {
    if capacity == 0 || !GoesOn(position, frames) then (0, position)
    else
      var (n, stop) := Loop((position + step) % 0x1_0000_0000_0000_0000, step, frames, capacity - 1);
      (n + 1, stop)
  }

  /** Where the call stops, the phase fits 64 bits; and if the loop tests it there, the index plus 1 fits 32 bits. */
  predicate InRange(phase: nat, step: nat, frames: nat, capacity: nat) {
    var n := Count(phase, step, frames, capacity);
    var stop := Advance(phase, step, n);
    stop < TWO64 && (n < capacity ==> stop / 0x1_0000_0000 + 1 < TWO32)
  }

  lemma {:induction false} AdvanceGrows(phase: nat, step: nat, n: nat)
    ensures phase <= Advance(phase, step, n)
  {
    if n > 0 {
      AdvanceGrows(phase, step, n - 1);
    }
  }

  /** In machine arithmetic the loop makes the outputs it should, and stops where it should, exactly when in range. */
  lemma {:induction false} LoopExactly(phase: u64, step: u64, frames: u32, capacity: nat)
    requires frames > 0
    ensures var n := Count(phase, step, frames, capacity);
            Loop(phase, step, frames, capacity) == (n, Advance(phase, step, n)) <==>
            InRange(phase, step, frames, capacity)
    decreases capacity
  {
    if capacity > 0 && Covered(phase, frames) {
      var n := Count(phase, step, frames, capacity);
      AdvanceOne(phase, step, n);
      GoesOnExactly(phase, frames);
      if phase + step < TWO64 {
        LoopExactly(phase + step, step, frames, capacity - 1);
        assert (phase + step) % 0x1_0000_0000_0000_0000 == phase + step;
      } else {
        AdvanceGrows(phase + step, step, n - 1);
      }
    } else if capacity > 0 {
      GoesOnExactly(phase, frames);
    }
  }

  /** The test is wrong only where it wraps: it then goes on, though there is no frame to go on to. */
  lemma GoesOnExactly(position: u64, frames: u32)
    requires frames > 0
    ensures GoesOn(position, frames) <==> Covered(position, frames) || position / 0x1_0000_0000 + 1 == TWO32
    ensures Covered(position, frames) ==> position / 0x1_0000_0000 + 1 < TWO32
  {
    CoveredIndex(position, frames);
  }

  /** Every position up to the stop is in range, and every one before it is covered. */
  lemma InRangeAt(phase: nat, step: nat, frames: nat, capacity: nat, k: nat)
    requires InRange(phase, step, frames, capacity) && k <= Count(phase, step, frames, capacity) && frames < TWO32
    ensures Advance(phase, step, k) < TWO64
    ensures k < capacity ==> Advance(phase, step, k) / 0x1_0000_0000 + 1 < TWO32
    ensures k < capacity ==>
              (k < Count(phase, step, frames, capacity) <==> Covered(Advance(phase, step, k), frames))
  {
    var n := Count(phase, step, frames, capacity);
    CountMeans(phase, step, frames, capacity);
    if k < n {
      CoveredAt(phase, step, n, frames, k);
      CoveredIndex(Advance(phase, step, k), frames);
      AdvanceTwice(phase, step, k, n - k);
      AdvanceGrows(Advance(phase, step, k), step, n - k);
    }
  }

  /** One turn of the loop in range: the test is right, and the phase does not wrap. */
  lemma LoopTurn(phase: nat, step: nat, frames: u32, capacity: nat, k: nat, position: u64)
    requires InRange(phase, step, frames, capacity) && frames > 0
    requires k <= Count(phase, step, frames, capacity) && k < capacity && position == Advance(phase, step, k)
    ensures GoesOn(position, frames) <==> k < Count(phase, step, frames, capacity)
    ensures GoesOn(position, frames) ==> Covered(position, frames)
    ensures GoesOn(position, frames) ==>
              (position + step) % 0x1_0000_0000_0000_0000 == Advance(phase, step, k + 1)
  {
    InRangeAt(phase, step, frames, capacity, k);
    GoesOnExactly(position, frames);
    if k < Count(phase, step, frames, capacity) {
      InRangeAt(phase, step, frames, capacity, k + 1);
    }
  }

  /**
   The widest rates overrun the index test: at input rate 2^32 - 1 and output rate 1, the second test of a call on two
   frames adds 1 to 0xFFFFFFFF, goes on, and the loop makes an output that has no source frames.
   */
  lemma WrapReadsThrough()
    ensures var step: u64 := 0xFFFF_FFFF * 0x1_0000_0000;
            && step == 0xFFFF_FFFF * TWO32 / 1
            && GoesOn(step, 2) && !Covered(step, 2)
            && Count(0, step, 2, 2) == 1 && Loop(0, step, 2, 2).0 == 2 && !InRange(0, step, 2, 2)
  {
    var step: u64 := 0xFFFF_FFFF * 0x1_0000_0000;
    var second: u64 := (step + step) % 0x1_0000_0000_0000_0000;
    assert Loop(second, step, 2, 0) == (0, second);
    assert Loop(step, step, 2, 1) == (1, second);
    assert Count(step, step, 2, 1) == 0;
    assert Advance(0, step, 1) == Advance(0, step, 0) + step;
  }

  lemma StepOfRates(input_rate: nat, output_rate: nat)
    requires output_rate > 0
    ensures input_rate * TWO32 / output_rate / TWO32 == input_rate / output_rate
  {
    var q, r := input_rate / output_rate, input_rate % output_rate;
    var scaled := r * TWO32;
    var rest: nat, tail: nat := scaled / output_rate, scaled % output_rate;
    RestBelow(r, output_rate, rest, tail);
    WholeStep(input_rate, output_rate, q, r, rest, tail);
    DivisionUnique(input_rate * TWO32, output_rate, q * TWO32 + rest, tail);
    DivisionUnique(q * TWO32 + rest, TWO32, q, rest);
  }

  lemma RestBelow(r: nat, d: nat, rest: nat, tail: nat)
    requires r < d && r * TWO32 == rest * d + tail
    ensures rest < TWO32
  {
    if rest >= TWO32 {
      NextMultiple(TWO32 - 1, rest, d);
    }
  }

  lemma WholeStep(n: nat, d: nat, q: nat, r: nat, rest: nat, tail: nat)
    requires n == q * d + r && r * TWO32 == rest * d + tail
    ensures n * TWO32 == (q * TWO32 + rest) * d + tail
  {
    assert (q * d) * TWO32 == (q * TWO32) * d;
    assert (q * TWO32 + rest) * d == (q * TWO32) * d + rest * d;
  }

  lemma RatioOfTwo(input_rate: u32, output_rate: u32)
    requires output_rate >= 2
    ensures input_rate / output_rate < MAX_SAMPLES
  {
    var ratio := input_rate / output_rate;
    assert input_rate == ratio * output_rate + input_rate % output_rate;
    NextMultiple(1, output_rate, ratio);
  }

  /** From a covered position, one step at these rates stays in range. */
  lemma StepInRange(position: nat, step: nat, ratio: nat, frames: nat)
    requires Covered(position, frames) && step / 0x1_0000_0000 == ratio
    requires if step % 0x1_0000_0000 == 0 then ratio + frames <= TWO32 else ratio + frames < TWO32
    ensures position + step < TWO64 && (position + step) / 0x1_0000_0000 + 1 < TWO32
  {
    CoveredIndex(position, frames);
    assert step == ratio * 0x1_0000_0000 + step % 0x1_0000_0000;
    assert position == position / 0x1_0000_0000 * 0x1_0000_0000 + position % 0x1_0000_0000;
  }

  /** A carried phase is in range before any step. */
  lemma PhaseInRange(phase: nat, step: nat)
    requires phase < Max(TWO32, step) && step <= 0xFFFF_FFFF * 0x1_0000_0000
    ensures phase < TWO64 && phase / 0x1_0000_0000 + 1 < TWO32
  {
  }

  lemma LargestStep(input_rate: u32, output_rate: u32)
    requires output_rate > 0
    ensures input_rate * TWO32 / output_rate <= 0xFFFF_FFFF * 0x1_0000_0000
  {
    var n: nat := input_rate * TWO32;
    var step := n / output_rate;
    assert n == step * output_rate + n % output_rate;
    assert step <= step * output_rate by { Scaled(1, output_rate, step); }
  }

  /** No call on at most `longest` frames leaves the range, unless the output rate is 1 and the input rate too high. */
  lemma RatesInRange(input_rate: u32, output_rate: u32, longest: nat, phase: nat, frames: nat, capacity: nat)
    requires output_rate > 0 && frames <= longest <= MAX_SAMPLES
    requires output_rate >= 2 || input_rate + longest <= TWO32
    requires phase < Max(TWO32, input_rate * TWO32 / output_rate)
    ensures InRange(phase, input_rate * TWO32 / output_rate, frames, capacity)
  {
    var step := input_rate * TWO32 / output_rate;
    var n := Count(phase, step, frames, capacity);
    LargestStep(input_rate, output_rate);
    PhaseInRange(phase, step);
    if n > 0 {
      CountMeans(phase, step, frames, capacity);
      AdvanceOne(phase, step, n);
      StepOfRates(input_rate, output_rate);
      if output_rate >= 2 {
        RatioOfTwo(input_rate, output_rate);
      }
      StepInRange(Advance(phase, step, n - 1), step, input_rate / output_rate, frames);
    }
  }

  class Converter {
    var inputRate: u32
    var outputRate: u32
    var channels: Channels
    var mode: Mode
    var phase: u64
    var step: u64

    ghost predicate Valid()
      reads this
    {
      && inputRate > 0 && outputRate > 0 && 1 <= channels <= 2
      && step > 0
      && phase < Max(TWO32, step)
    }

    constructor ()
      ensures phase == 0 && step == 0
    {
      inputRate, outputRate, channels, mode, phase, step := 0, 0, 1, Nearest, 0, 0;
    }

    /** The step is exact to one TWO32 unit and never 0, so initialisation cannot fail for a step of 0. */
    method Init(inputRate: u32, outputRate: u32, channels: nat, mode: Mode) returns (result: int)
      modifies this
      ensures result ==
              if inputRate == 0 || outputRate == 0 then -2 else if channels != 1 && channels != 2 then -3 else 0
      ensures result == 0 ==>
                && Valid() && phase == 0
                && this.inputRate == inputRate && this.outputRate == outputRate
                && this.channels == channels && this.mode == mode
                && step == inputRate * TWO32 / outputRate
      ensures result != 0 ==> unchanged(this)
    {
      if inputRate == 0 || outputRate == 0 {
        return -2;
      }
      if channels != 1 && channels != 2 {
        return -3;
      }
      this.inputRate := inputRate;
      this.outputRate := outputRate;
      this.channels := channels;
      this.mode := mode;
      phase := 0;
      step := DivU64U32(inputRate * TWO32, outputRate);
      StepPositive(inputRate, outputRate);
      if step == 0 {
        return -5;
      }
      return 0;
    }

    /** One output sample per channel for the frame at `produced`. */
    method EmitFrame(input: array<s16>, inputFrames: u32, output: array<s16>, produced: u32, position: u64)
      requires Frames(input[..], channels, inputFrames) && Covered(position, inputFrames)
      requires Offset(produced + 1, channels) <= output.Length && input != output
      modifies output
      ensures FrameIs(input[..], channels, inputFrames, mode, output[..], produced, position)
      ensures forall k :: 0 <= k < output.Length
                          && !(Offset(produced, channels) <= k < Offset(produced + 1, channels)) ==>
                output[k] == old(output[k])
    {
      var index: u32 := position / 0x1_0000_0000;
      var fraction: u32 := position % 0x1_0000_0000;
      var channel: nat := 0;
      while channel < channels
        invariant 0 <= channel <= channels
        invariant forall c: nat :: c < channel ==>
                    At(output[..], channels, produced, c) ==
                    Interpolate(input[..], channels, inputFrames, mode, position, c)
        invariant forall k :: 0 <= k < output.Length
                              && !(Offset(produced, channels) <= k < Offset(produced + 1, channels)) ==>
                    output[k] == old(output[k])
      {
        var a, b := input[Offset(index, channels) + channel], input[Offset(index + 1, channels) + channel];
        SampleBetween(mode, a, b, fraction);
        output[Offset(produced, channels) + channel] := ToS16(Sample(mode, a, b, fraction));
        channel := channel + 1;
      }
    }

    /** The exact-rate path: a plain copy, with no frame retained. */
    method CopyFrames(input: array<s16>, output: array<s16>, frames: u32)
      requires input != output
      requires Offset(frames, channels) <= input.Length && Offset(frames, channels) <= output.Length
      modifies output
      ensures forall k :: 0 <= k < output.Length ==>
                output[k] == if k < Offset(frames, channels) then input[k] else old(output[k])
    {
      var i := 0;
      while i < Offset(frames, channels)
        invariant 0 <= i <= Offset(frames, channels)
        invariant forall k :: 0 <= k < output.Length ==> output[k] == if k < i then input[k] else old(output[k])
      {
        output[i] := input[i];
        i := i + 1;
      }
    }

    /** What the first `n` output frames are: interpolations at phase + j * step. */
    ghost predicate Emitted(source: seq<s16>, frames: nat, target: seq<s16>, start: nat, n: nat)
      requires Frames(source, channels, frames)
      reads this
    {
      forall j: nat :: j < n ==> FrameIs(source, channels, frames, mode, target, j, Advance(start, step, j))
    }

    /** The output frames, each against the source samples it stands between. */
    ghost predicate AllPlaced(source: seq<s16>, target: seq<s16>, start: nat, n: nat)
      reads this
    {
      forall j: nat :: j < n ==> FramePlaced(source, channels, mode, target, j, Advance(start, step, j))
    }

    lemma EmittedPlaced(source: seq<s16>, frames: nat, target: seq<s16>, start: nat, n: nat)
      requires Frames(source, channels, frames) && Emitted(source, frames, target, start, n)
      ensures AllPlaced(source, target, start, n)
    {
      forall j: nat | j < n ensures FramePlaced(source, channels, mode, target, j, Advance(start, step, j)) {
        FrameIsPlaced(source, channels, frames, mode, target, j, Advance(start, step, j));
      }
    }

    lemma EmittedMore(source: seq<s16>, frames: nat, before: seq<s16>, after: seq<s16>, start: nat, n: nat)
      requires Frames(source, channels, frames)
      requires Emitted(source, frames, before, start, n) && |before| == |after|
      requires forall k :: 0 <= k < |after| && k < Offset(n, channels) ==> after[k] == before[k]
      requires FrameIs(source, channels, frames, mode, after, n, Advance(start, step, n))
      ensures Emitted(source, frames, after, start, n + 1)
    {
      forall j: nat | j < n ensures FrameIs(source, channels, frames, mode, after, j, Advance(start, step, j)) {
        assert FrameIs(source, channels, frames, mode, before, j, Advance(start, step, j));
        assert Offset(j + 1, channels) <= Offset(n, channels);
        forall c: nat | c < channels ensures At(after, channels, j, c) == At(before, channels, j, c) {
        }
      }
    }

    /** One more output frame behind those already there. */
    method EmitNext(input: array<s16>, inputFrames: u32, output: array<s16>, produced: u32, position: u64)
      requires Frames(input[..], channels, inputFrames) && Covered(position, inputFrames) && input != output
      requires position == Advance(phase, step, produced) && Offset(produced + 1, channels) <= output.Length
      requires Emitted(input[..], inputFrames, output[..], phase, produced)
      modifies output
      ensures Emitted(input[..], inputFrames, output[..], phase, produced + 1)
      ensures forall k :: Offset(produced + 1, channels) <= k < output.Length ==> output[k] == old(output[k])
    {
      ghost var before := output[..];
      EmitFrame(input, inputFrames, output, produced, position);
      EmittedMore(input[..], inputFrames, before, output[..], phase, produced);
    }

    /** The output loop; wrap-around is written out, and does not happen in range. */
    method EmitAll(input: array<s16>, inputFrames: u32, output: array<s16>, capacity: u32)
      returns (produced: u32, position: u64)
      requires phase < Max(TWO32, step) && Frames(input[..], channels, inputFrames) && inputFrames >= 2
      requires Offset(capacity, channels) <= output.Length && output != input
      requires InRange(phase, step, inputFrames, capacity)
      modifies output
      ensures produced == Count(phase, step, inputFrames, capacity)
      ensures position == Advance(phase, step, produced)
      ensures Emitted(input[..], inputFrames, output[..], phase, produced)
      ensures forall k :: Offset(produced, channels) <= k < output.Length ==> output[k] == old(output[k])
    {
      produced, position := 0, phase;
      while produced < capacity
        invariant produced <= Count(phase, step, inputFrames, capacity) && position == Advance(phase, step, produced)
        invariant Emitted(input[..], inputFrames, output[..], phase, produced)
        invariant forall k :: Offset(produced, channels) <= k < output.Length ==> output[k] == old(output[k])
      {
        LoopTurn(phase, step, inputFrames, capacity, produced, position);
        if !GoesOn(position, inputFrames) {
          break;
        }
        EmitNext(input, inputFrames, output, produced, position);
        produced := produced + 1;
        position := (position + step) % 0x1_0000_0000_0000_0000;
      }
    }

    /** Whether a call does nothing at all. */
    ghost predicate Idle(input: array?<s16>, inputFrames: u32, output: array?<s16>, capacity: u32)
      reads this
    {
      || input == null || output == null || capacity == 0 || inputFrames == 0
      || (inputRate != outputRate && inputFrames < 2)
    }

    method Process(input: array?<s16>, inputFrames: u32, output: array?<s16>, capacity: u32)
      returns (produced: u32, consumed: u32)
      requires Valid()
      requires input != null ==> Frames(input[..], channels, inputFrames) && input.Length <= MAX_SAMPLES
      requires output != null ==> Offset(capacity, channels) <= output.Length <= MAX_SAMPLES && output != input
      requires inputRate != outputRate ==> InRange(phase, step, inputFrames, capacity)
      modifies `phase, output
      ensures Valid()
      ensures Idle(input, inputFrames, output, capacity) ==>
                && produced == 0 && consumed == 0 && phase == old(phase)
                && (output != null ==> output[..] == old(output[..]))
      ensures !Idle(input, inputFrames, output, capacity) && inputRate == outputRate ==>
                && produced == consumed == Min(inputFrames, capacity) && phase == 0
                && forall k :: 0 <= k < output.Length ==>
                     output[k] == if k < Offset(produced, channels) then old(input[..])[k] else old(output[k])
      ensures !Idle(input, inputFrames, output, capacity) && inputRate != outputRate ==>
                && produced == Count(old(phase), step, inputFrames, capacity)
                && consumed == Consumed(Advance(old(phase), step, produced), inputFrames)
                && phase == Left(Advance(old(phase), step, produced), inputFrames)
                && Emitted(old(input[..]), inputFrames, output[..], old(phase), produced)
                && AllPlaced(old(input[..]), output[..], old(phase), produced)
                && forall k :: Offset(produced, channels) <= k < output.Length ==> output[k] == old(output[k])
    {
      produced, consumed := 0, 0;
      if input == null || output == null || capacity == 0 || inputFrames == 0 {
        return;
      }
      if inputRate == outputRate {
        var frames := if inputFrames > capacity then capacity else inputFrames;
        assert Offset(frames, channels) <= Offset(inputFrames, channels);
        assert Offset(frames, channels) <= Offset(capacity, channels);
        CopyFrames(input, output, frames);
        phase := 0;
        return frames, frames;
      }
      if inputFrames < 2 {
        return;
      }
      CarriedPhase(phase, step, inputFrames, capacity);
      var position: u64;
      produced, position := EmitAll(input, inputFrames, output, capacity);
      EmittedPlaced(input[..], inputFrames, output[..], phase, produced);
      var consumed64 := position / 0x1_0000_0000;
      if consumed64 >= inputFrames {
        consumed := inputFrames - 1;
      } else {
        consumed := consumed64;
      }
      phase := position - consumed * 0x1_0000_0000;
    }

    method Reset()
      requires Valid()
      modifies `phase
      ensures Valid() && phase == 0
    {
      phase := 0;
    }
  }

  lemma StepPositive(input_rate: u32, output_rate: u32)
    requires input_rate > 0 && output_rate > 0
    ensures input_rate * TWO32 / output_rate > 0
    ensures input_rate * TWO32 / output_rate < TWO64
  {
    var step := input_rate * TWO32 / output_rate;
    assert input_rate * TWO32 == step * output_rate + input_rate * TWO32 % output_rate;
    NextMultiple(0, output_rate, step);
  }
}
