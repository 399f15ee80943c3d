/** From the accepted frames to the blocks that are filled: what the queue lets go is what fills the SPU2 blocks. */
module AudioDelivery {
  import opened Machine
  import opened Resampler
  import opened AudioRing
  import opened AudioService

  // ---------------------------------------------------------------- what is taken and what is filled

  /** The frames that leave the queue in this step, if it is the end of a render. */
  function TakeOf(s: State, a: Action): (chunks: seq<seq<Frame>>) {
    if a.PlayStep? && s.play.PlayCopy? && s.play.i >= |s.render| && s.play.take <= |s.history.queue|
    then [s.history.queue[..s.play.take]] else []
  }

  /** The block that is filled in this step, if it is the end of the copy into the SPU2 buffer. */
  function FillOf(s: State, a: Action): (fills: seq<seq<Frame>>) {
    if a.PlayStep? && s.play.PlayBlock? && s.play.i >= 256 then [s.render] else []
  }

  function Takes(s: State, actions: seq<Action>): (chunks: seq<seq<Frame>>)
    decreases actions
  {
    if |actions| == 0 then [] else TakeOf(s, actions[0]) + Takes(Next(s, actions[0]), actions[1..])
  }

  function Fills(s: State, actions: seq<Action>): (fills: seq<seq<Frame>>)
    decreases actions
  {
    if |actions| == 0 then [] else FillOf(s, actions[0]) + Fills(Next(s, actions[0]), actions[1..])
  }

  /** Each chunk, padded to a block with silence. */
  function Pads(chunks: seq<seq<Frame>>): (r: seq<seq<Frame>>)
    ensures |r| == |chunks|
  {
    if chunks == [] then []
    else [if |chunks[0]| <= BLOCK_FRAMES then Padded(chunks[0]) else chunks[0]] + Pads(chunks[1..])
  }

  lemma {:induction false} PadsAppend(a: seq<seq<Frame>>, b: seq<seq<Frame>>)
    ensures Pads(a + b) == Pads(a) + Pads(b)
  {
    if a == [] {
      assert a + b == b;
    } else {
      assert (a + b)[1..] == a[1..] + b;
      PadsAppend(a[1..], b);
    }
  }

  // ---------------------------------------------------------------- at most one block on its way

  /** Between the end of a render and the end of the copy, the render block is on its way. */
  predicate Carrying(pc: PlayPc) {
    || pc.PlayUnderrun? || pc.PlayRelease? || pc.PlaySignal?
    || pc.PlaySuspend? || pc.PlayPick? || pc.PlayBlock?
  }

  /** What has been taken and not yet filled: nothing, or the chunk in the render block. */
  predicate OnItsWay(s: State, chunks: seq<seq<Frame>>) {
    if Carrying(s.play) then |chunks| == 1 && |chunks[0]| <= BLOCK_FRAMES && s.render == Padded(chunks[0])
    else chunks == []
  }

  /** The end of a render puts its chunk on its way. */
  lemma TakePuts(s: State)
    requires Inv(s) && s.play.PlayCopy? && s.play.i >= BLOCK_FRAMES
    ensures OnItsWay(AfterPlay(s), TakeOf(s, PlayStep))
  {
    var chunk := s.history.queue[..s.play.take];
    assert s.render[..BLOCK_FRAMES] == s.render && Padded(chunk)[..BLOCK_FRAMES] == Padded(chunk);
    assert TakeOf(s, PlayStep) == [chunk];
  }

  /** Any other play step neither puts a chunk on its way nor, before the copy ends, touches the one that is. */
  lemma PlayCarries(s: State, chunks: seq<seq<Frame>>)
    requires Inv(s) && OnItsWay(s, chunks) && TakeOf(s, PlayStep) == FillOf(s, PlayStep) == []
    ensures OnItsWay(AfterPlay(s), chunks)
  {
    if Rendering(s.play) { RenderCarries(s, chunks); } else { FillCarries(s, chunks); }
  }

  lemma RenderCarries(s: State, chunks: seq<seq<Frame>>)
    requires Inv(s) && Rendering(s.play) && OnItsWay(s, chunks) && TakeOf(s, PlayStep) == []
    ensures OnItsWay(AfterRender(s), chunks)
  {
    match s.play
    case PlayWait => case PlayEnter => case PlayTake => case PlayCopy(_, _) =>
    case PlayUnderrun(_) => case PlayRelease(_) => case PlaySignal =>
  }

  lemma FillCarries(s: State, chunks: seq<seq<Frame>>)
    requires !Rendering(s.play) && OnItsWay(s, chunks) && FillOf(s, PlayStep) == []
    ensures OnItsWay(AfterFill(s), chunks)
  {
    FillFrame(s);
    match s.play
    case PlaySuspend => case PlayPick => case PlayBlock(_, _) => case PlayResume =>
  }

  /** The other side never touches the render block. */
  lemma OthersCarry(s: State, a: Action)
    requires Inv(s) && Enabled(s, a) && !a.PlayStep?
    ensures Next(s, a).play == s.play && Next(s, a).render == s.render
  {
    match a
    case Call(request) => CallFrame(s, request);
    case RpcStep =>
      if Submitting(s.rpc) { SubmitFrame(s); } else if Switching(s.rpc) { SwitchFrame(s); } else { ControlFrame(s); }
    case DmaDone => DmaFrame(s);
  }

  lemma StepDelivers(s: State, a: Action, chunks: seq<seq<Frame>>) returns (left: seq<seq<Frame>>)
    requires Inv(s) && Enabled(s, a) && OnItsWay(s, chunks)
    ensures OnItsWay(Next(s, a), left)
    ensures Pads(chunks + TakeOf(s, a)) == FillOf(s, a) + Pads(left)
  {
    left := chunks;
    if !a.PlayStep? {
      OthersCarry(s, a);
    } else if TakeOf(s, a) != [] {
      TakePuts(s);
      left := TakeOf(s, a);
      assert chunks + left == left;
    } else if FillOf(s, a) != [] {
      left := [];
      assert chunks + [] == chunks && Pads(chunks[1..]) == [] && Pads(chunks) == [s.render];
    } else {
      PlayCarries(s, chunks);
    }
    assert TakeOf(s, a) == [] ==> chunks + TakeOf(s, a) == chunks;
  }

  lemma PadsJoin(chunks: seq<seq<Frame>>, take: seq<seq<Frame>>, takes: seq<seq<Frame>>, mid: seq<seq<Frame>>,
                 fill: seq<seq<Frame>>, fills: seq<seq<Frame>>, left: seq<seq<Frame>>)
    requires Pads(chunks + take) == fill + Pads(mid) && Pads(mid + takes) == fills + Pads(left)
    ensures Pads(chunks + (take + takes)) == (fill + fills) + Pads(left)
  {
    Associate(chunks, take, takes);
    PadsAppend(chunks + take, takes);
    PadsAppend(mid, takes);
    Associate(fill, Pads(mid), Pads(takes));
    Associate(fill, fills, Pads(left));
  }

  lemma {:induction false} RunDelivers(s: State, actions: seq<Action>, chunks: seq<seq<Frame>>)
    returns (left: seq<seq<Frame>>)
    requires Inv(s) && Allowed(s, actions) && OnItsWay(s, chunks)
    ensures OnItsWay(After(s, actions), left)
    ensures Pads(chunks + Takes(s, actions)) == Fills(s, actions) + Pads(left)
    decreases actions
  {
    if |actions| == 0 {
      left := chunks;
      assert chunks + [] == chunks;
    } else {
      var next := Next(s, actions[0]);
      StepKeeps(s, actions[0]);
      var mid := StepDelivers(s, actions[0], chunks);
      left := RunDelivers(next, actions[1..], mid);
      PadsJoin(chunks, TakeOf(s, actions[0]), Takes(next, actions[1..]), mid,
               FillOf(s, actions[0]), Fills(next, actions[1..]), left);
    }
  }

  /**
   In every interleaving, the blocks filled are the chunks that left the queue, each padded with silence, in order, none
   lost and none repeated; at most the last chunk is still on its way.
   */
  lemma FillsAreTakes(actions: seq<Action>) returns (left: seq<seq<Frame>>)
    requires Allowed(Initial(), actions)
    ensures |left| <= 1 && Pads(Takes(Initial(), actions)) == Fills(Initial(), actions) + Pads(left)
  {
    InitialHolds();
    left := RunDelivers(Initial(), actions, []);
    assert [] + Takes(Initial(), actions) == Takes(Initial(), actions);
  }

  // ---------------------------------------------------------------- and the chunks are the accepted frames

  function Flatten(chunks: seq<seq<Frame>>): (frames: seq<Frame>) {
    if chunks == [] then [] else Flatten(chunks[..|chunks| - 1]) + chunks[|chunks| - 1]
  }

  /** The chunks taken since the last flush, when `chunks` were before. */
  function TakesSinceFlush(s: State, actions: seq<Action>, chunks: seq<seq<Frame>>): (r: seq<seq<Frame>>)
    decreases actions
  {
    if |actions| == 0 then chunks
    else TakesSinceFlush(Next(s, actions[0]), actions[1..], Kept(s, actions[0], chunks))
  }

  function Kept(s: State, a: Action, chunks: seq<seq<Frame>>): (r: seq<seq<Frame>>) {
    if a.RpcStep? && s.rpc.FlushHold? then [] else chunks + TakeOf(s, a)
  }

  lemma StepRenders(s: State, a: Action, chunks: seq<seq<Frame>>)
    requires Inv(s) && Enabled(s, a) && s.history.rendered == Flatten(chunks)
    ensures Next(s, a).history.rendered == Flatten(Kept(s, a, chunks))
  {
    match a
    case Call(request) => CallFrame(s, request); assert chunks + [] == chunks;
    case RpcStep => RpcRenders(s); assert chunks + [] == chunks;
    case PlayStep => PlayRenders(s, chunks);
    case DmaDone => DmaFrame(s); assert chunks + [] == chunks;
  }

  lemma RpcRenders(s: State)
    ensures AfterRpc(s).history.rendered == if s.rpc.FlushHold? then [] else s.history.rendered
  {
    if Submitting(s.rpc) {
      SubmitRenders(s);
    } else if Switching(s.rpc) {
      SwitchFrame(s);
    } else if !s.rpc.FlushHold? {
      ControlQuiet(s);
    }
  }

  lemma SubmitRenders(s: State)
    requires Submitting(s.rpc)
    ensures AfterSubmit(s).history.rendered == s.history.rendered
  {
    match s.rpc
    case SubmitEnter(_, _) => case SubmitCheck(_, _) => case SubmitFull(_, _) =>
    case SubmitWait(_, _) => case SubmitCopy(_, _, _, _) => case SubmitRelease(_, _) =>
  }

  lemma PlayRenders(s: State, chunks: seq<seq<Frame>>)
    requires Inv(s) && s.history.rendered == Flatten(chunks)
    ensures AfterPlay(s).history.rendered == Flatten(chunks + TakeOf(s, PlayStep))
  {
    assert chunks + [] == chunks;
    if Rendering(s.play) {
      if s.play.PlayCopy? && s.play.i >= |s.render| {
        assert (chunks + TakeOf(s, PlayStep))[..|chunks|] == chunks;
      } else {
        RenderQuiet(s);
      }
    } else {
      FillFrame(s);
    }
  }

  lemma {:induction false} RunRenders(s: State, actions: seq<Action>, chunks: seq<seq<Frame>>)
    requires Inv(s) && Allowed(s, actions) && s.history.rendered == Flatten(chunks)
    ensures After(s, actions).history.rendered == Flatten(TakesSinceFlush(s, actions, chunks))
    decreases actions
  {
    if |actions| > 0 {
      StepKeeps(s, actions[0]);
      StepRenders(s, actions[0], chunks);
      RunRenders(Next(s, actions[0]), actions[1..], Kept(s, actions[0], chunks));
    }
  }

  /**
   In every interleaving, the chunks taken since the last flush, one after the other, followed by what is still queued,
   are exactly the frames accepted since then.
   */
  lemma TakesAreAccepted(actions: seq<Action>)
    requires Allowed(Initial(), actions)
    ensures var s := After(Initial(), actions);
            s.history.accepted == Flatten(TakesSinceFlush(Initial(), actions, [])) + s.history.queue
  {
    InitialHolds();
    RunKeeps(Initial(), actions);
    RunRenders(Initial(), actions, []);
  }

  // ---------------------------------------------------------------- what the blocks show

  /** Each SPU2 block was last filled with silence or with one of these. */
  predicate ShowsOneOf(shown: seq<seq<Frame>>, fills: seq<seq<Frame>>) {
    forall b :: 0 <= b < |shown| ==> shown[b] == SilentBlock() || shown[b] in fills
  }

  lemma StepShows(s: State, a: Action, fills: seq<seq<Frame>>)
    requires Inv(s) && Enabled(s, a) && ShowsOneOf(s.history.shown, fills)
    ensures ShowsOneOf(Next(s, a).history.shown, fills + FillOf(s, a))
  {
    match a
    case Call(request) => CallFrame(s, request);
    case RpcStep => RpcShows(s);
    case PlayStep =>
      if Rendering(s.play) {
        RenderFrame(s);
      } else if s.play.PlayBlock? && s.play.i >= 256 {
        FillShowsRender(s);
      } else {
        FillQuiet(s);
      }
    case DmaDone => DmaFrame(s);
  }

  lemma FillQuiet(s: State)
    requires !Rendering(s.play) && !(s.play.PlayBlock? && s.play.i >= 256)
    ensures AfterFill(s).history.shown == s.history.shown
  {
    if !s.play.PlayBlock? { FillPick(s); }
  }

  lemma RpcShows(s: State)
    requires Enabled(s, RpcStep)
    ensures AfterRpc(s).history.shown == s.history.shown
            || AfterRpc(s).history.shown == [SilentBlock(), SilentBlock()]
  {
    if Submitting(s.rpc) {
      SubmitFrame(s);
    } else if Switching(s.rpc) {
      match s.rpc
      case StartClear(_, _, _) => case StartActive => case StartMask => case StartRunning => case StartLaunch =>
      case StartFlag => case StartUnpause => case StopRunning => case StopMask => case StopFlag => case StopUnpause =>
    } else {
      ControlFrame(s);
    }
  }

  lemma {:induction false} RunShows(s: State, actions: seq<Action>, fills: seq<seq<Frame>>)
    requires Inv(s) && Allowed(s, actions) && ShowsOneOf(s.history.shown, fills)
    ensures ShowsOneOf(After(s, actions).history.shown, fills + Fills(s, actions))
    decreases actions
  {
    if |actions| == 0 {
      assert fills + [] == fills;
    } else {
      var fill, rest := FillOf(s, actions[0]), Fills(Next(s, actions[0]), actions[1..]);
      StepKeeps(s, actions[0]);
      StepShows(s, actions[0], fills);
      RunShows(Next(s, actions[0]), actions[1..], fills + fill);
      assert (fills + fill) + rest == fills + (fill + rest);
    }
  }

  /** In every interleaving, each block was last filled with silence or with one of the blocks filled in the run. */
  lemma BlocksShowFills(actions: seq<Action>)
    requires Allowed(Initial(), actions)
    ensures ShowsOneOf(After(Initial(), actions).history.shown, Fills(Initial(), actions))
  {
    InitialHolds();
    RunShows(Initial(), actions, []);
    assert [] + Fills(Initial(), actions) == Fills(Initial(), actions);
  }
}
