/** What each request has done when it returns, whatever runs in between. */
module AudioCalls {
  import opened Machine
  import opened Resampler
  import opened AudioRing
  import opened AudioService
  import opened AudioDelivery

  /** The run from a request to its return: the RPC thread is back, and was not before. */
  predicate CallRun(s: State, actions: seq<Action>) {
    && |actions| > 0 && actions[0].Call?
    && var r := Next(s, actions[0]);
       if r.rpc.Ready? then |actions| == 1 else Returns(r, actions[1..])
  }

  predicate Returns(s: State, actions: seq<Action>)
    decreases actions
  {
    && |actions| > 0 && !s.rpc.Ready?
    && var r := Next(s, actions[0]);
       if r.rpc.Ready? then |actions| == 1 else Returns(r, actions[1..])
  }

  /** What holds on the way, when `start` was accepted before the request. */
  predicate OnTheWay(s: State, request: Request, start: seq<Frame>) {
    match request
    case Submit(frames) => Submitting(s.rpc) && s.rpc.samples == frames && s.history.before == start
    case Flush =>
      || s.rpc.FlushEnter? || s.rpc.FlushHold?
      || ((s.rpc.FlushRelease? || s.rpc.FlushSignal?) && s.history.queue == s.history.accepted == [])
    case SetLatency(ms) => s.rpc.LatencySignal? && s.ring.limit == LimitFor(ms)
    case Start => Switching(s.rpc) && !Stopping(s.rpc) && (s.rpc.StartUnpause? ==> s.started)
    case Stop => Stopping(s.rpc) && (s.rpc.StopUnpause? ==> !s.started)
    case _ => false
  }

  predicate Stopping(pc: RpcPc) {
    pc.StopRunning? || pc.StopMask? || pc.StopFlag? || pc.StopUnpause?
  }

  /** And at the return of a request that took effect. */
  predicate TookEffect(r: State, request: Request, start: seq<Frame>) {
    match request
    case Submit(frames) => r.history.accepted == start + frames
    case Flush => r.history.queue == r.history.accepted == [] && r.space
    case SetLatency(ms) => r.ring.limit == LimitFor(ms) && r.space
    case Start => r.started && !r.paused
    case Stop => !r.started && !r.paused
    case Pause => r.paused
    case Resume => !r.paused
  }

  // ---------------------------------------------------------------- every step on the way

  lemma SubmitReturns(s: State)
    requires SubmitPlace(s.rpc, s.ring, s.history) && Submitting(s.rpc) && AfterSubmit(s).rpc.Ready?
    ensures AfterSubmit(s).history == s.history && s.history.accepted == s.history.before + s.rpc.samples
  {
    match s.rpc
    case SubmitEnter(samples, source) => assert samples[..source] == samples;
    case SubmitCheck(_, _) => case SubmitFull(_, _) => case SubmitWait(_, _) =>
    case SubmitCopy(_, _, _, _) => case SubmitRelease(_, _) =>
  }

  lemma RpcOnTheWay(s: State, request: Request, start: seq<Frame>)
    requires Inv(s) && Enabled(s, RpcStep) && OnTheWay(s, request, start)
    ensures var r := AfterRpc(s);
            if r.rpc.Ready? then TookEffect(r, request, start) else OnTheWay(r, request, start)
  {
    match request
    case Submit(frames) =>
      SubmitSame(s);
      if AfterSubmit(s).rpc.Ready? { SubmitReturns(s); }
    case Flush => FlushOnTheWay(s);
    case SetLatency(ms) =>
    case Start => StartOnTheWay(s);
    case Stop => StopOnTheWay(s);
    case _ =>
  }

  lemma FlushOnTheWay(s: State)
    requires OnTheWay(s, Flush, [])
    ensures var r := AfterControl(s);
            if r.rpc.Ready? then TookEffect(r, Flush, []) else OnTheWay(r, Flush, [])
  {
    match s.rpc
    case FlushEnter => case FlushHold => case FlushRelease => case FlushSignal =>
  }

  lemma StartOnTheWay(s: State)
    requires OnTheWay(s, Start, [])
    ensures var r := AfterSwitch(s);
            if r.rpc.Ready? then TookEffect(r, Start, []) else OnTheWay(r, Start, [])
  {
    match s.rpc
    case StartClear(_, _, _) => case StartActive => case StartMask => case StartRunning => case StartLaunch =>
    case StartFlag => case StartUnpause =>
  }

  lemma StopOnTheWay(s: State)
    requires OnTheWay(s, Stop, [])
    ensures var r := AfterSwitch(s);
            if r.rpc.Ready? then TookEffect(r, Stop, []) else OnTheWay(r, Stop, [])
  {
    match s.rpc
    case StopRunning => case StopMask => case StopFlag => case StopUnpause =>
  }

  /** The play thread and the interrupt leave alone what a request is about. */
  lemma OthersLeave(s: State, a: Action)
    requires Inv(s) && Enabled(s, a) && (a.PlayStep? || a.DmaDone?)
    ensures var r := Next(s, a);
            && r.rpc == s.rpc && r.ring.limit == s.ring.limit && r.started == s.started
            && r.history.before == s.history.before && r.history.accepted == s.history.accepted
            && (s.history.queue == [] ==> r.history.queue == [])
  {
    if a.DmaDone? {
      DmaFrame(s);
    } else if !Rendering(s.play) {
      FillFrame(s);
      FillLeavesStarted(s);
    } else {
      RenderFrame(s);
      if s.play.PlayCopy? && s.play.i >= |s.render| {
        assert s.play.take <= 0 ==> s.history.queue[s.play.take..] == s.history.queue;
      } else {
        RenderQuiet(s);
      }
    }
  }

  lemma FillLeavesStarted(s: State)
    requires !Rendering(s.play)
    ensures AfterFill(s).started == s.started
  {
    if s.play.PlayResume? {
      InterruptFrame(s.(spu := s.spu.(suspended := false, pending := false), play := PlayWait));
    }
  }

  lemma {:induction false} ReturnTakesEffect(s: State, actions: seq<Action>, request: Request, start: seq<Frame>)
    requires Inv(s) && Allowed(s, actions) && Returns(s, actions) && OnTheWay(s, request, start)
    ensures var r := After(s, actions); Inv(r) && r.rpc.Ready? && TookEffect(r, request, start)
    decreases actions
  {
    var r := Next(s, actions[0]);
    StepKeeps(s, actions[0]);
    if actions[0].RpcStep? {
      RpcOnTheWay(s, request, start);
    } else {
      OthersLeave(s, actions[0]);
    }
    if r.rpc.Ready? {
      assert actions[1..] == [] && After(s, actions) == After(r, []);
    } else {
      ReturnTakesEffect(r, actions[1..], request, start);
    }
  }

  // ---------------------------------------------------------------- what a request has done

  /** Whether the service takes the request up: its argument is in range, and there is something to do. */
  predicate TakenUp(s: State, request: Request) {
    match request
    case Submit(frames) => |frames| <= MAX_SUBMIT
    case SetLatency(ms) => 1 <= ms <= MAX_LATENCY_MS
    case Start => !s.started
    case Pause => s.started
    case Resume => s.started
    case _ => true
  }

  lemma CallBegins(s: State, request: Request)
    requires s.rpc.Ready?
    ensures var r := AfterCall(s, request);
            if r.rpc.Ready? then (if TakenUp(s, request) then TookEffect(r, request, s.history.accepted) else r == s)
            else TakenUp(s, request) && OnTheWay(r, request, s.history.accepted)
  {
    match request
    case Submit(_) => case Flush => case SetLatency(_) => case Start => case Pause => case Resume => case Stop =>
  }

  /**
   What a request has done at its return, whatever ran in between: a submit has put exactly its frames behind those
   accepted before; a flush has left nothing queued or accepted, and signalled; a latency is the limit, and signalled;
   a start has the stream running, a stop has it stopped with nothing in flight; pause and resume are set. A request
   that is not taken up changes nothing.
   */
  lemma CallTakesEffect(s: State, before: seq<Action>, request: Request, actions: seq<Action>)
    requires Reached(s, before) && Allowed(s, actions) && CallRun(s, actions) && actions[0] == Call(request)
    ensures var r := After(s, actions);
            && r.rpc.Ready?
            && (if TakenUp(s, request) then TookEffect(r, request, s.history.accepted) else r == s)
            && (request == Flush ==> r.ring.queued == 0)
            && (request == Stop ==> !r.spu.running && r.spu.inflight == Quiet)
            && (request == Start ==> r.spu.running)
  {
    ReachedHolds(s, before);
    StepKeeps(s, actions[0]);
    CallBegins(s, request);
    var r := AfterCall(s, request);
    if r.rpc.Ready? {
      assert actions[1..] == [] && After(s, actions) == After(r, []);
    } else {
      ReturnTakesEffect(r, actions[1..], request, s.history.accepted);
    }
  }

  /**
   After a flush nothing from before it is heard: from its return on, the chunks taken, one after the other, and then
   the queue are exactly the frames accepted since.
   */
  lemma FlushForgets(s: State, before: seq<Action>, call: seq<Action>, rest: seq<Action>)
    requires Reached(s, before) && Allowed(s, call) && CallRun(s, call) && call[0] == Call(Flush)
    requires Allowed(After(s, call), rest)
    ensures var r := After(s, call);
            && r.history.accepted == []
            && After(r, rest).history.accepted == Flatten(TakesSinceFlush(r, rest, [])) + After(r, rest).history.queue
  {
    ReachedHolds(s, before);
    RunKeeps(s, call);
    CallTakesEffect(s, before, Flush, call);
    var r := After(s, call);
    RunKeeps(r, rest);
    RunRenders(r, rest, []);
  }

  // ---------------------------------------------------------------- semaphores

  function One(b: bool): (n: nat) {
    if b then 1 else 0
  }

  /** The step gets past the wait for room, or signals that there is some. */
  predicate TakesSpace(s: State, a: Action) {
    a.RpcStep? && s.rpc.SubmitWait?
  }

  predicate GivesSpace(s: State, a: Action) {
    || (a.PlayStep? && s.play.PlaySignal?)
    || (a.RpcStep? && (s.rpc.FlushSignal? || s.rpc.LatencySignal?))
  }

  /** The step gets past the wait for a completion, or runs the completion handler. */
  predicate TakesDone(s: State, a: Action) {
    a.PlayStep? && s.play.PlayWait?
  }

  predicate GivesDone(s: State, a: Action) {
    || (a.DmaDone? && !s.spu.suspended)
    || (a.PlayStep? && s.play.PlayResume? && s.spu.pending)
  }

  /** How many steps of the run do `what`. */
  function Times(what: (State, Action) -> bool, s: State, actions: seq<Action>): (n: nat)
    decreases actions
  {
    if |actions| == 0 then 0 else One(what(s, actions[0])) + Times(what, Next(s, actions[0]), actions[1..])
  }

  lemma StepSignals(s: State, a: Action)
    requires Enabled(s, a)
    ensures One(TakesSpace(s, a)) + One(Next(s, a).space) <= One(s.space) + One(GivesSpace(s, a))
    ensures One(TakesDone(s, a)) + One(Next(s, a).transferDone) <= One(s.transferDone) + One(GivesDone(s, a))
  {
    match a
    case Call(request) => CallSignals(s, request);
    case RpcStep => RpcSignals(s);
    case PlayStep => PlaySignals(s);
    case DmaDone => DmaFrame(s);
  }

  lemma CallSignals(s: State, request: Request)
    ensures AfterCall(s, request).space == s.space && AfterCall(s, request).transferDone == s.transferDone
  {
    match request
    case Submit(_) => case Flush => case SetLatency(_) => case Start => case Pause => case Resume => case Stop =>
  }

  lemma RpcSignals(s: State)
    requires Enabled(s, RpcStep)
    ensures One(s.rpc.SubmitWait?) + One(AfterRpc(s).space)
            <= One(s.space) + One(s.rpc.FlushSignal? || s.rpc.LatencySignal?)
    ensures AfterRpc(s).transferDone == s.transferDone
  {
    if Submitting(s.rpc) {
      match s.rpc
      case SubmitEnter(_, _) => case SubmitCheck(_, _) => case SubmitFull(_, _) =>
      case SubmitWait(_, _) => case SubmitCopy(_, _, _, _) => case SubmitRelease(_, _) =>
    } else if Switching(s.rpc) {
      SwitchFrame(s);
    } else {
      match s.rpc
      case FlushEnter => case FlushHold => case FlushRelease => case FlushSignal => case LatencySignal =>
    }
  }

  lemma PlaySignals(s: State)
    requires Enabled(s, PlayStep)
    ensures One(AfterPlay(s).space) <= One(s.space) + One(s.play.PlaySignal?)
    ensures One(s.play.PlayWait?) + One(AfterPlay(s).transferDone)
            <= One(s.transferDone) + One(s.play.PlayResume? && s.spu.pending)
  {
    if Rendering(s.play) {
      match s.play
      case PlayWait => case PlayEnter => case PlayTake => case PlayCopy(_, _) =>
      case PlayUnderrun(_) => case PlayRelease(_) => case PlaySignal =>
    } else {
      FillFrame(s);
      match s.play
      case PlaySuspend => case PlayPick => case PlayBlock(_, _) => case PlayResume =>
    }
  }

  lemma {:induction false} RunSignals(s: State, actions: seq<Action>)
    requires Allowed(s, actions)
    ensures Times(TakesSpace, s, actions) + One(After(s, actions).space)
            <= One(s.space) + Times(GivesSpace, s, actions)
    ensures Times(TakesDone, s, actions) + One(After(s, actions).transferDone)
            <= One(s.transferDone) + Times(GivesDone, s, actions)
    decreases actions
  {
    if |actions| > 0 {
      StepSignals(s, actions[0]);
      RunSignals(Next(s, actions[0]), actions[1..]);
    }
  }

  /**
   No wait ends without a signal of its own: in every interleaving, a submitter has passed no more waits than there were
   signals of room, and the play thread no more than there were completions.
   */
  lemma WaitsAreSignalled(actions: seq<Action>)
    requires Allowed(Initial(), actions)
    ensures Times(TakesSpace, Initial(), actions) <= Times(GivesSpace, Initial(), actions)
    ensures Times(TakesDone, Initial(), actions) <= Times(GivesDone, Initial(), actions)
  {
    RunSignals(Initial(), actions);
  }
}
