/**
 What is heard, as long as the play thread keeps up: after a start two blocks of silence, and then every block that is
 filled, once and in order.
 */
module AudioPlayback {
  import opened Machine
  import opened Resampler
  import opened AudioRing
  import opened AudioService
  import opened AudioDelivery
  import opened AudioBlocks

  /** The play thread keeps up: each completion, like each start, finds it asleep. */
  predicate InTime(s: State, a: Action) {
    Calm(s, a) && (a.DmaDone? ==> Asleep(s))
  }

  predicate InTimeRun(s: State, actions: seq<Action>)
    decreases actions
  {
    |actions| == 0 || (InTime(s, actions[0]) && InTimeRun(Next(s, actions[0]), actions[1..]))
  }

  // ---------------------------------------------------------------- what is heard

  /** What has been played, and what has been filled, since the stream was last launched. */
  datatype Log = Log(plays: seq<seq<Frame>>, fills: seq<seq<Frame>>)

  /** Does this step set off a block? */
  predicate SetsOff(s: State, a: Action) {
    && Next(s, a).spu.inflight.Block?
    && (a.DmaDone? || (a.PlayStep? && s.play.PlayResume? && s.spu.pending) || Launches(s, a))
  }

  predicate Launches(s: State, a: Action) {
    a.RpcStep? && s.rpc.StartLaunch?
  }

  /** The frames of the block in flight. */
  function InFlight(s: State): (plays: seq<seq<Frame>>) {
    if s.spu.inflight.Block? && s.spu.inflight.index < |s.blocks| && |s.blocks[s.spu.inflight.index]| == BLOCK_SAMPLES
    then [Decode(s.blocks[s.spu.inflight.index])] else []
  }

  function Entered(s: State, a: Action, log: Log): (r: Log) {
    var played := if SetsOff(s, a) then InFlight(Next(s, a)) else [];
    if Launches(s, a) then Log(played, []) else Log(log.plays + played, log.fills + FillOf(s, a))
  }

  function LogOf(s: State, actions: seq<Action>, log: Log): (r: Log)
    decreases actions
  {
    if |actions| == 0 then log else LogOf(Next(s, actions[0]), actions[1..], Entered(s, actions[0], log))
  }

  // ---------------------------------------------------------------- one block ahead

  predicate Streaming(s: State) {
    s.spu.running && !s.rpc.StartLaunch?
  }

  /** Everything filled has been set off, and the play thread is on its way to fill the next block. */
  predicate Behind(s: State) {
    s.transferDone || !(s.play.PlayWait? || s.play.PlayResume?)
  }

  function Expected(fills: seq<seq<Frame>>): (r: seq<seq<Frame>>) {
    [SilentBlock(), SilentBlock()] + fills
  }

  predicate InOrder(s: State, log: Log)
    requires |s.history.shown| == 2
  {
    var all := Expected(log.fills);
    if Behind(s) then log.plays == all
    else log.plays + [s.history.shown[if s.spu.active == 0 then 1 else 0]] == all
  }

  predicate Heard(s: State, log: Log) {
    && (!s.play.PlayWait? ==> !s.transferDone) && !s.spu.pending
    && |s.history.shown| == 2
    && (Preparing(s.rpc) ==> s.history.shown == [SilentBlock(), SilentBlock()])
    && (Streaming(s) ==> InOrder(s, log))
  }

  /** The steps of a start that follow the clearing, up to the launch. */
  predicate Preparing(pc: RpcPc) {
    pc.StartActive? || pc.StartMask? || pc.StartRunning? || pc.StartLaunch?
  }

  /** What matters to the listener is as it was. */
  predicate SameToHear(s: State, r: State) {
    && r.play == s.play && r.spu == s.spu && r.transferDone == s.transferDone
    && r.history.shown == s.history.shown && !Preparing(s.rpc) && !Preparing(r.rpc)
  }

  lemma SameHeard(s: State, r: State, log: Log)
    requires Heard(s, log) && SameToHear(s, r)
    ensures Heard(r, Log(log.plays + [], log.fills + []))
  {
    assert log.plays + [] == log.plays && log.fills + [] == log.fills;
  }

  lemma RpcSame(s: State)
    requires !Switching(s.rpc)
    ensures SameToHear(s, AfterRpc(s))
  {
    if Submitting(s.rpc) {
      SubmitFrame(s);
      SubmitSame(s);
      SubmitLeavesDone(s);
    } else {
      ControlFrame(s);
      ControlLeavesDone(s);
    }
  }

  lemma SubmitLeavesDone(s: State)
    requires Submitting(s.rpc)
    ensures AfterSubmit(s).transferDone == s.transferDone
  {
    match s.rpc
    case SubmitEnter(_, _) => case SubmitCheck(_, _) => case SubmitFull(_, _) =>
    case SubmitWait(_, _) => case SubmitCopy(_, _, _, _) => case SubmitRelease(_, _) =>
  }

  lemma ControlLeavesDone(s: State)
    requires !Submitting(s.rpc) && !Switching(s.rpc)
    ensures AfterControl(s).transferDone == s.transferDone
  {
    match s.rpc
    case Ready => case FlushEnter => case FlushHold => case FlushRelease => case FlushSignal => case LatencySignal =>
  }

  /** Starting and stopping: the launch plays silence and begins a new log. */
  lemma SwitchHeard(s: State, log: Log)
    requires CalmInv(s) && Switching(s.rpc) && Enabled(s, RpcStep) && Heard(s, log)
    ensures Heard(AfterSwitch(s), Entered(s, RpcStep, log))
  {
    SwitchFrame(s);
    assert log.plays + [] == log.plays && log.fills + [] == log.fills;
    if s.rpc.StartLaunch? {
      LaunchHeard(s, log);
    } else {
      SwitchQuiet(s);
    }
  }

  /** Before the launch and after it nothing that is heard changes, but that a stop ends the stream. */
  lemma SwitchQuiet(s: State)
    requires SpuHolds(s.spu, s.rpc, s.play, s.started) && Switching(s.rpc) && !s.rpc.StartLaunch?
    ensures var r := AfterSwitch(s);
            && r.spu.pending == s.spu.pending
            && (r.history.shown == s.history.shown || r.history.shown == [SilentBlock(), SilentBlock()])
            && (Preparing(r.rpc) && !Preparing(s.rpc) ==> r.history.shown == [SilentBlock(), SilentBlock()])
            && (Streaming(r) ==>
                  Streaming(s) && r.spu.active == s.spu.active && r.history.shown == s.history.shown)
  {
    match s.rpc
    case StartClear(_, _, _) => case StartActive => case StartMask => case StartRunning => case StartFlag =>
    case StartUnpause => case StopRunning => case StopMask => case StopFlag => case StopUnpause =>
  }

  lemma LaunchHeard(s: State, log: Log)
    requires CalmInv(s) && s.rpc.StartLaunch? && Heard(s, log)
    ensures Heard(AfterSwitch(s), Entered(s, RpcStep, log))
  {
    var r := AfterSwitch(s);
    assert BlockWhole(s.blocks, s.history.shown, 0);
    DecodeEncode(SilentBlock());
    assert InFlight(r) == [SilentBlock()];
    assert Entered(s, RpcStep, log) == Log([SilentBlock()], []);
    assert [SilentBlock()] + [SilentBlock()] == Expected([]);
  }

  lemma CallHeard(s: State, request: Request, log: Log)
    requires s.rpc.Ready? && Heard(s, log)
    ensures Heard(AfterCall(s, request), Entered(s, Call(request), log))
  {
    CallSame(s, request);
    SameHeard(s, AfterCall(s, request), log);
  }

  lemma CallSame(s: State, request: Request)
    requires s.rpc.Ready?
    ensures SameToHear(s, AfterCall(s, request))
  {
    CallFrame(s, request);
    match request
    case Submit(_) => case Flush => case SetLatency(_) => case Start => case Pause => case Resume => case Stop =>
  }

  lemma RenderHeard(s: State, log: Log)
    requires Rendering(s.play) && Enabled(s, PlayStep) && Heard(s, log)
    ensures Heard(AfterRender(s), Entered(s, PlayStep, log))
  {
    RenderFrame(s);
    assert log.plays + [] == log.plays && log.fills + [] == log.fills;
    match s.play
    case PlayWait => case PlayEnter => case PlayTake => case PlayCopy(_, _) =>
    case PlayUnderrun(_) => case PlayRelease(_) => case PlaySignal =>
  }

  /** The end of the copy puts its block next. */
  lemma FilledHeard(s: State, log: Log)
    requires CalmInv(s) && s.play.PlayBlock? && s.play.i >= 256 && Heard(s, log)
    ensures Heard(AfterFill(s), Entered(s, PlayStep, log))
  {
    FillShowsRender(s);
    assert log.plays + [] == log.plays;
    assert Expected(log.fills) + [s.render] == Expected(log.fills + [s.render]);
  }

  lemma FillHeard(s: State, log: Log)
    requires CalmInv(s) && !Rendering(s.play) && Heard(s, log)
    ensures Heard(AfterFill(s), Entered(s, PlayStep, log))
  {
    assert log.plays + [] == log.plays && log.fills + [] == log.fills;
    if s.play.PlayBlock? && s.play.i >= 256 {
      FilledHeard(s, log);
    } else {
      FillQuiet(s);
      match s.play
      case PlaySuspend => case PlayPick => case PlayBlock(_, _) => case PlayResume =>
    }
  }

  /** A completion in time sets off the block that was filled last. */
  lemma DmaHeard(s: State, log: Log)
    requires CalmInv(s) && Enabled(s, DmaDone) && Asleep(s) && Heard(s, log)
    ensures Heard(AfterDma(s), Entered(s, DmaDone, log))
  {
    DmaFrame(s);
    assert log.plays + [] == log.plays && log.fills + [] == log.fills;
    if s.spu.running {
      var other := Other(s.spu.active);
      assert BlockWhole(s.blocks, s.history.shown, other);
      DecodeEncode(s.history.shown[other]);
    }
  }

  lemma StepHeard(s: State, a: Action, log: Log)
    requires CalmInv(s) && Enabled(s, a) && InTime(s, a) && Heard(s, log)
    ensures Heard(Next(s, a), Entered(s, a, log))
  {
    match a
    case Call(request) => CallHeard(s, request, log);
    case RpcStep =>
      if Switching(s.rpc) {
        SwitchHeard(s, log);
      } else {
        RpcSame(s);
        SameHeard(s, AfterRpc(s), log);
      }
    case PlayStep => if Rendering(s.play) { RenderHeard(s, log); } else { FillHeard(s, log); }
    case DmaDone => DmaHeard(s, log);
  }

  lemma {:induction false} RunHeard(s: State, actions: seq<Action>, log: Log)
    requires CalmInv(s) && Allowed(s, actions) && InTimeRun(s, actions) && Heard(s, log)
    ensures Heard(After(s, actions), LogOf(s, actions, log)) && CalmInv(After(s, actions))
    decreases actions
  {
    if |actions| > 0 {
      StepCalm(s, actions[0]);
      StepHeard(s, actions[0], log);
      RunHeard(Next(s, actions[0]), actions[1..], Entered(s, actions[0], log));
    }
  }

  /**
   While the play thread keeps up, what has been played since the launch is silence twice and then every block filled
   since, once and in order, up to the last one, which may be waiting its turn.
   */
  lemma PlaysInOrder(actions: seq<Action>)
    requires Allowed(Initial(), actions) && InTimeRun(Initial(), actions) && Streaming(After(Initial(), actions))
    ensures var log := LogOf(Initial(), actions, Log([], []));
            && |log.fills| + 1 <= |log.plays| <= |log.fills| + 2
            && log.plays == Expected(log.fills)[..|log.plays|]
  {
    InitialCalm();
    RunHeard(Initial(), actions, Log([], []));
    var s, log := After(Initial(), actions), LogOf(Initial(), actions, Log([], []));
    assert InOrder(s, log);
  }

  /** The blocks of the log are the last of those filled in the run. */
  lemma {:induction false} LogFills(s: State, actions: seq<Action>, log: Log) returns (k: nat)
    ensures k <= |log.fills + Fills(s, actions)|
    ensures LogOf(s, actions, log).fills == (log.fills + Fills(s, actions))[k..]
    decreases actions
  {
    if |actions| == 0 {
      k := 0;
      assert log.fills + [] == log.fills;
    } else {
      var fill, rest := FillOf(s, actions[0]), Fills(Next(s, actions[0]), actions[1..]);
      k := LogFills(Next(s, actions[0]), actions[1..], Entered(s, actions[0], log));
      Associate(log.fills, fill, rest);
      if Launches(s, actions[0]) {
        DropFront(log.fills + fill, rest, k);
        k := |log.fills + fill| + k;
      }
    }
  }

  lemma DropFront<T>(a: seq<T>, b: seq<T>, k: nat)
    requires k <= |[] + b|
    ensures k <= |b| && (a + b)[|a| + k..] == ([] + b)[k..]
  {
    assert [] + b == b;
  }
}
