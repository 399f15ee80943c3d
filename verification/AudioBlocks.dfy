/**
 What the SPU2 plays. Starting the stream clears its buffer byte by byte under no lock; the blocks stay whole
 as long as the play thread is asleep when that begins, which the thread priorities guarantee.
 */
module AudioBlocks {
  import opened Machine
  import opened Resampler
  import opened AudioRing
  import opened AudioService
  import opened AudioDelivery

  /** Block `b` holds one whole rendered block. */
  ghost predicate BlockWhole(blocks: seq<seq<s16>>, shown: seq<seq<Frame>>, b: nat)
    requires b < |blocks| && b < |shown|
  {
    |shown[b]| == BLOCK_FRAMES && blocks[b] == Encode(shown[b])
  }

  /** Every SPU2 block that is not being filled holds one whole rendered block. */
  ghost predicate BlocksWhole(blocks: seq<seq<s16>>, shown: seq<seq<Frame>>, render: seq<Frame>, play: PlayPc) {
    && |blocks| == 2 && |shown| == 2 && |blocks[0]| == |blocks[1]| == BLOCK_SAMPLES && |render| == BLOCK_FRAMES
    && (forall b :: 0 <= b < 2 && !(play.PlayBlock? && play.idle == b) ==> BlockWhole(blocks, shown, b))
    && (play.PlayBlock? ==>
          && play.idle < 2 && play.i <= 256
          && forall k :: 0 <= k < play.i ==> FourStored(blocks[play.idle], 0, Encode(render), k))
  }

  predicate Zero(block: seq<s16>, n: nat)
    requires n <= |block|
  {
    forall k :: 0 <= k < n ==> block[k] == 0
  }

  /** The buffer is cleared up to this byte. */
  predicate ClearedTo(blocks: seq<seq<s16>>, block: nat, sample: nat, high: bool) {
    && |blocks| == 2 && |blocks[0]| == |blocks[1]| == BLOCK_SAMPLES && block <= 2 && sample < BLOCK_SAMPLES
    && (block > 0 ==> Zero(blocks[0], BLOCK_SAMPLES))
    && (block > 1 ==> Zero(blocks[1], BLOCK_SAMPLES))
    && (block < 2 ==> Zero(blocks[block], sample))
    && (block < 2 && high ==> blocks[block][sample] % 256 == 0)
  }

  /** The blocks are whole, or being cleared. */
  ghost predicate Whole(s: State) {
    if s.rpc.StartClear? then
      && |s.render| == BLOCK_FRAMES && |s.history.shown| == 2
      && ClearedTo(s.blocks, s.rpc.block, s.rpc.sample, s.rpc.high)
    else BlocksWhole(s.blocks, s.history.shown, s.render, s.play)
  }

  /** The play thread sleeps, and nothing has woken it. */
  predicate Asleep(s: State) {
    s.play.PlayWait? && !s.transferDone
  }

  /** It sleeps all through the start of a stream. */
  predicate Quiescent(s: State) {
    Starting(s.rpc) || s.rpc.StartLaunch? ==> Asleep(s)
  }

  ghost predicate CalmInv(s: State) {
    Inv(s) && Quiescent(s) && Whole(s)
  }

  /** A start that finds the play thread asleep; every other action. */
  predicate Calm(s: State, a: Action) {
    a == Call(Start) && !s.started ==> Asleep(s)
  }

  // ---------------------------------------------------------------- clearing

  lemma SilenceIsZero(block: seq<s16>)
    requires |block| == BLOCK_SAMPLES && Zero(block, BLOCK_SAMPLES)
    ensures block == Encode(SilentBlock())
  {
    var silent := Encode(SilentBlock());
    forall i | 0 <= i < 256 ensures FourStored(block, 0, silent, i) {
      EncodeAt(SilentBlock(), i);
    }
    AllStored(block, 0, silent);
    assert block[0..BLOCK_SAMPLES] == block;
  }

  lemma ClearMore(blocks: seq<seq<s16>>, block: nat, sample: nat, high: bool)
    requires ClearedTo(blocks, block, sample, high) && block < 2
    ensures var pc := NextByte(block, sample, high);
            ClearedTo(ClearedOnce(blocks, block, sample, high), pc.block, pc.sample, pc.high)
  {
    var v := blocks[block][sample];
    assert (v - v % 256) % 256 == 0;
    assert v % 256 == 0 ==> (if high then v % 256 else 0) == 0;
  }

  lemma AllCleared(blocks: seq<seq<s16>>, sample: nat, high: bool)
    requires ClearedTo(blocks, 2, sample, high)
    ensures blocks == SilentBuffer()
  {
    SilenceIsZero(blocks[0]);
    SilenceIsZero(blocks[1]);
  }

  // ---------------------------------------------------------------- filling

  lemma FourMore(block: seq<s16>, render: seq<Frame>, i: nat)
    requires |block| == BLOCK_SAMPLES && |render| == BLOCK_FRAMES && i < 256
    requires forall k :: 0 <= k < i ==> FourStored(block, 0, Encode(render), k)
    ensures forall k :: 0 <= k < i + 1 ==> FourStored(WithFour(block, render, i), 0, Encode(render), k)
  {
    EncodeAt(render, i);
    forall k | 0 <= k < i ensures FourStored(WithFour(block, render, i), 0, Encode(render), k) {
      assert FourStored(block, 0, Encode(render), k);
    }
  }

  /** One pass of the copy into the idle block leaves the other block whole. */
  lemma PassKeepsBlocks(s: State)
    requires BlocksWhole(s.blocks, s.history.shown, s.render, s.play)
    requires !Rendering(s.play) && s.play.PlayBlock? && s.play.i < 256
    ensures var r := AfterFill(s); BlocksWhole(r.blocks, r.history.shown, r.render, r.play)
  {
    var r, other := AfterFill(s), Other(s.play.idle);
    assert BlockWhole(s.blocks, s.history.shown, other);
    assert BlockWhole(r.blocks, r.history.shown, other);
    FourMore(s.blocks[s.play.idle], s.render, s.play.i);
  }

  /** The finished copy makes the idle block whole too. */
  lemma EndKeepsBlocks(s: State)
    requires BlocksWhole(s.blocks, s.history.shown, s.render, s.play)
    requires !Rendering(s.play) && s.play.PlayBlock? && s.play.i >= 256
    ensures var r := AfterFill(s); BlocksWhole(r.blocks, r.history.shown, r.render, r.play)
  {
    var r, block, other := AfterFill(s), s.blocks[s.play.idle], Other(s.play.idle);
    assert BlockWhole(s.blocks, s.history.shown, other);
    assert BlockWhole(r.blocks, r.history.shown, other);
    AllStored(block, 0, Encode(s.render));
    assert block[0..BLOCK_SAMPLES] == block;
    assert BlockWhole(r.blocks, r.history.shown, s.play.idle);
  }

  // ---------------------------------------------------------------- every step of a calm run

  lemma InitialCalm()
    ensures CalmInv(Initial())
  {
    var s := Initial();
    InitialHolds();
    assert BlockWhole(s.blocks, s.history.shown, 0) && BlockWhole(s.blocks, s.history.shown, 1);
  }

  /** A step that changes neither the blocks nor what they show keeps them whole. */
  lemma SameBlocks(s: State, r: State)
    requires Whole(s) && !s.rpc.StartClear? && !r.rpc.StartClear?
    requires r.blocks == s.blocks && r.history.shown == s.history.shown && |r.render| == |s.render|
    requires r.play == s.play || (!s.play.PlayBlock? && !r.play.PlayBlock?)
    requires s.play.PlayBlock? ==> r.render == s.render
    ensures Whole(r)
  {
    forall b | 0 <= b < 2 && !(r.play.PlayBlock? && r.play.idle == b)
      ensures BlockWhole(r.blocks, r.history.shown, b)
    {
      assert BlockWhole(s.blocks, s.history.shown, b);
    }
  }

  lemma SpuSideSame(s: State, r: State)
    requires Whole(s) && !s.rpc.StartClear? && !r.rpc.StartClear?
    requires r.blocks == s.blocks && r.history.shown == s.history.shown && r.render == s.render && r.play == s.play
    ensures Whole(r)
  {
    SameBlocks(s, r);
  }

  /** A step away from starting and stopping, on the far side of the SPU2. */
  predicate Away(s: State, r: State) {
    && !Switching(s.rpc) && !Switching(r.rpc)
    && r.blocks == s.blocks && r.history.shown == s.history.shown && r.render == s.render && r.play == s.play
  }

  lemma AwayFromSwitch(s: State, r: State)
    requires Whole(s) && Away(s, r)
    ensures Whole(r) && Quiescent(r)
  {
    SpuSideSame(s, r);
  }

  lemma SubmitAway(s: State)
    requires Submitting(s.rpc)
    ensures Away(s, AfterSubmit(s))
  {
    SubmitFrame(s);
    SubmitSame(s);
  }

  lemma ControlAway(s: State)
    requires !Submitting(s.rpc) && !Switching(s.rpc)
    ensures Away(s, AfterControl(s))
  {
    ControlFrame(s);
  }

  lemma ClearCalm(s: State)
    requires Whole(s) && Quiescent(s) && s.rpc.StartClear?
    ensures Whole(AfterSwitch(s))
  {
    var r := AfterSwitch(s);
    if s.rpc.block < 2 {
      ClearMore(s.blocks, s.rpc.block, s.rpc.sample, s.rpc.high);
    } else {
      AllCleared(s.blocks, s.rpc.sample, s.rpc.high);
      assert BlockWhole(r.blocks, r.history.shown, 0) && BlockWhole(r.blocks, r.history.shown, 1);
    }
  }

  /** Only the clearing touches the blocks, and once it is over nothing clears again. */
  lemma SwitchBlocks(s: State)
    requires Switching(s.rpc) && !s.rpc.StartClear?
    ensures AfterSwitch(s).blocks == s.blocks && AfterSwitch(s).history == s.history
    ensures !AfterSwitch(s).rpc.StartClear?
    ensures Starting(AfterSwitch(s).rpc) || AfterSwitch(s).rpc.StartLaunch? ==> Starting(s.rpc)
  {
    match s.rpc
    case StartActive => case StartMask => case StartRunning => case StartLaunch => case StartFlag =>
    case StartUnpause => case StopRunning => case StopMask => case StopFlag => case StopUnpause =>
  }

  lemma SwitchCalm(s: State)
    requires Whole(s) && Quiescent(s) && Switching(s.rpc)
    ensures Whole(AfterSwitch(s)) && Quiescent(AfterSwitch(s))
  {
    SwitchFrame(s);
    if s.rpc.StartClear? {
      ClearCalm(s);
    } else {
      SwitchBlocks(s);
      SpuSideSame(s, AfterSwitch(s));
    }
  }

  lemma CallCalm(s: State, request: Request)
    requires Whole(s) && s.rpc.Ready? && Sized(s) && Calm(s, Call(request))
    ensures Whole(AfterCall(s, request)) && Quiescent(AfterCall(s, request))
  {
    var r := AfterCall(s, request);
    CallFrame(s, request);
    if request == Start && !s.started {
      assert ClearedTo(r.blocks, 0, 0, false);
    } else {
      SpuSideSame(s, r);
    }
  }

  lemma RenderCalm(s: State)
    requires CalmInv(s) && Rendering(s.play) && Enabled(s, PlayStep)
    ensures Whole(AfterRender(s)) && Quiescent(AfterRender(s))
  {
    RenderFrame(s);
    SameBlocks(s, AfterRender(s));
  }

  lemma FillCalm(s: State)
    requires CalmInv(s) && !Rendering(s.play)
    ensures Whole(AfterFill(s)) && Quiescent(AfterFill(s))
  {
    FillFrame(s);
    if s.play.PlayBlock? {
      if s.play.i < 256 { PassKeepsBlocks(s); } else { EndKeepsBlocks(s); }
    } else {
      FillPick(s);
      SameBlocksButPick(s, AfterFill(s));
    }
  }

  /** Picking the idle block lets go of the claim that it is whole. */
  lemma SameBlocksButPick(s: State, r: State)
    requires BlocksWhole(s.blocks, s.history.shown, s.render, s.play) && !s.play.PlayBlock? && !r.rpc.StartClear?
    requires r.blocks == s.blocks && r.history.shown == s.history.shown && r.render == s.render
    requires r.play.PlayBlock? ==> r.play.i == 0 && r.play.idle < 2
    ensures Whole(r)
  {
    forall b | 0 <= b < 2 && !(r.play.PlayBlock? && r.play.idle == b)
      ensures BlockWhole(r.blocks, r.history.shown, b)
    {
      assert BlockWhole(s.blocks, s.history.shown, b);
    }
  }

  lemma DmaCalm(s: State)
    requires CalmInv(s) && Enabled(s, DmaDone)
    ensures Whole(AfterDma(s)) && Quiescent(AfterDma(s))
  {
    DmaFrame(s);
    SpuSideSame(s, AfterDma(s));
  }

  lemma StepCalm(s: State, a: Action)
    requires CalmInv(s) && Enabled(s, a) && Calm(s, a)
    ensures CalmInv(Next(s, a))
  {
    StepKeeps(s, a);
    match a
    case Call(request) => CallCalm(s, request);
    case RpcStep =>
      if Switching(s.rpc) {
        SwitchCalm(s);
      } else {
        if Submitting(s.rpc) { SubmitAway(s); } else { ControlAway(s); }
        AwayFromSwitch(s, Next(s, a));
      }
    case PlayStep =>
      if Rendering(s.play) { RenderCalm(s); } else { FillCalm(s); }
    case DmaDone => DmaCalm(s);
  }

  // ---------------------------------------------------------------- calm runs

  /** Every start of the run finds the play thread asleep. */
  predicate CalmRun(s: State, actions: seq<Action>)
    decreases actions
  {
    |actions| == 0 || (Calm(s, actions[0]) && CalmRun(Next(s, actions[0]), actions[1..]))
  }

  lemma {:induction false} CalmRunKeeps(s: State, actions: seq<Action>)
    requires CalmInv(s) && Allowed(s, actions) && CalmRun(s, actions)
    ensures CalmInv(After(s, actions))
    decreases actions
  {
    if |actions| > 0 {
      StepCalm(s, actions[0]);
      CalmRunKeeps(Next(s, actions[0]), actions[1..]);
    }
  }

  /** The block in flight decodes to silence or to one of the blocks filled in the run. */
  predicate PlaysWhole(s: State, actions: seq<Action>) {
    s.spu.inflight.Block? ==>
      var b := s.spu.inflight.index;
      && b < |s.blocks| && |s.blocks[b]| == BLOCK_SAMPLES
      && var played := Decode(s.blocks[b]);
         played == SilentBlock() || played in Fills(Initial(), actions)
  }

  /**
   In every interleaving whose starts find the play thread asleep, what the SPU2 plays is always silence or one whole
   block of those filled, which are the padded chunks of the queue: never a half-filled or a half-cleared one.
   */
  lemma PlaysWholeBlocks(s: State, actions: seq<Action>)
    requires Reached(s, actions) && CalmRun(Initial(), actions) && s.spu.inflight.Block?
    ensures var b := s.spu.inflight.index;
            && b < |s.blocks| && b < |s.history.shown|
            && |s.history.shown[b]| == BLOCK_FRAMES && |s.blocks[b]| == BLOCK_SAMPLES
            && Decode(s.blocks[b]) == s.history.shown[b]
    ensures PlaysWhole(s, actions)
  {
    InitialCalm();
    CalmRunKeeps(Initial(), actions);
    BlocksShowFills(actions);
    var b := s.spu.inflight.index;
    assert BlockWhole(s.blocks, s.history.shown, b);
    DecodeEncode(s.history.shown[b]);
  }

  // ---------------------------------------------------------------- thread priorities

  /** The play thread has the higher priority: the RPC thread runs only while the play thread waits. */
  predicate Scheduled(s: State, a: Action) {
    Enabled(s, a) && (a.Call? || a.RpcStep? ==> !Enabled(s, PlayStep))
  }

  predicate ScheduledRun(s: State, actions: seq<Action>)
    decreases actions
  {
    |actions| == 0 || (Scheduled(s, actions[0]) && ScheduledRun(Next(s, actions[0]), actions[1..]))
  }

  /** Under the priorities every run is calm, so the blocks that are played are whole. */
  lemma {:induction false} PrioritiesCalm(s: State, actions: seq<Action>)
    requires Inv(s) && ScheduledRun(s, actions)
    ensures Allowed(s, actions) && CalmRun(s, actions)
    decreases actions
  {
    if |actions| > 0 {
      StepKeeps(s, actions[0]);
      PrioritiesCalm(Next(s, actions[0]), actions[1..]);
    }
  }

  lemma PrioritiesPlayWholeBlocks(s: State, actions: seq<Action>)
    requires ScheduledRun(Initial(), actions) && s == After(Initial(), actions) && s.spu.inflight.Block?
    ensures var b := s.spu.inflight.index;
            && b < |s.blocks| && b < |s.history.shown| && |s.blocks[b]| == BLOCK_SAMPLES
            && Decode(s.blocks[b]) == s.history.shown[b]
    ensures PlaysWhole(s, actions)
  {
    InitialHolds();
    PrioritiesCalm(Initial(), actions);
    PlaysWholeBlocks(s, actions);
  }
}
