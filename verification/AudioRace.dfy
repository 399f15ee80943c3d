/**
 Why a start must find the play thread asleep: without the thread priorities, a play thread that was woken just
 before the stream stopped can fill a block while the next start is clearing it.
 */
module AudioRace {
  import opened Machine
  import opened Resampler
  import opened AudioRing
  import opened AudioService
  import opened AudioBlocks

  // ---------------------------------------------------------------- one turn of the play thread

  /** The stream is stopped and the play thread is on its way through its loop, with interrupts on. */
  predicate Awake(s: State) {
    && !s.spu.running && s.spu.inflight == Quiet && !s.spu.pending && !s.transferDone
    && !RpcHolds(s.rpc)
  }

  /** Nothing but the play thread's own data has changed. */
  predicate Aside(s: State, r: State) {
    && r.rpc == s.rpc && r.started == s.started && r.spu.running == s.spu.running && r.spu.active == s.spu.active
    && r.spu.inflight == s.spu.inflight && r.transferDone == s.transferDone && r.spu.pending == s.spu.pending
  }

  function RenderLeft(pc: PlayPc): (n: int) {
    match pc
    case PlayEnter => 600
    case PlayTake => 590
    case PlayCopy(_, i) => 580 - i
    case PlayUnderrun(_) => 3
    case PlayRelease(_) => 2
    case _ => 1
  }

  /** The frame that is, or will be, first in the render block. */
  predicate FirstRendered(s: State, f: Frame) {
    if s.play.PlayEnter? || s.play.PlayTake? then !s.paused && s.history.queue != [] && s.history.queue[0] == f
    else if s.play.PlayCopy? && s.play.i == 0 then s.play.take > 0 && s.history.queue != [] && s.history.queue[0] == f
    else s.render != [] && s.render[0] == f
  }

  lemma OneRender(s: State, f: Frame)
    requires Inv(s) && Awake(s) && Rendering(s.play) && !s.play.PlayWait? && FirstRendered(s, f)
    ensures Enabled(s, PlayStep) && var r := AfterRender(s);
            Aside(s, r) && r.blocks == s.blocks && FirstRendered(r, f) && !r.play.PlayWait?
            && (Rendering(r.play) ==> 0 <= RenderLeft(r.play) < RenderLeft(s.play))
            && (!Rendering(r.play) ==> r.play == PlaySuspend)
  {
    RenderFrame(s);
    if s.play.PlayCopy? && s.play.i == 0 {
      assert s.history.queue + Uncounted(s.rpc) == s.history.queue;
      assert s.ring.slots[Slot(s.ring.read, 0)] == s.history.queue[0];
    }
  }

  lemma {:induction false} RenderTurn(s: State, f: Frame) returns (actions: seq<Action>)
    requires Inv(s) && Awake(s) && Rendering(s.play) && !s.play.PlayWait? && FirstRendered(s, f)
    ensures Allowed(s, actions) && var r := After(s, actions);
            Inv(r) && Aside(s, r) && r.blocks == s.blocks && r.play == PlaySuspend && r.render != [] && r.render[0] == f
    decreases RenderLeft(s.play)
  {
    OneRender(s, f);
    StepKeeps(s, PlayStep);
    var r, rest := AfterRender(s), [];
    if Rendering(r.play) {
      rest := RenderTurn(r, f);
    }
    actions := StepThen(s, PlayStep, rest);
  }

  function FillLeft(pc: PlayPc): (n: int) {
    match pc
    case PlaySuspend => 300
    case PlayPick => 299
    case PlayBlock(_, i) => 290 - i
    case _ => 1
  }

  /** The first left sample of the idle block is, or will be, that of the frame. */
  predicate FirstFilled(s: State, f: Frame) {
    && |s.blocks| == 2 && |s.render| == BLOCK_FRAMES && |s.blocks[0]| == BLOCK_SAMPLES
    && (if s.play.PlaySuspend? || s.play.PlayPick? || (s.play.PlayBlock? && s.play.i == 0) then s.render[0] == f
        else s.blocks[0][0] == f.left)
  }

  lemma OneFill(s: State, f: Frame)
    requires Inv(s) && Awake(s) && !Rendering(s.play) && FirstFilled(s, f) && s.spu.active == 1
    ensures Enabled(s, PlayStep) && var r := AfterFill(s);
            Aside(s, r) && FirstFilled(r, f)
            && (!Rendering(r.play) ==> 0 <= FillLeft(r.play) < FillLeft(s.play))
            && (Rendering(r.play) ==> r.play == PlayWait && !r.spu.suspended)
  {
    match s.play
    case PlaySuspend => case PlayPick => case PlayBlock(_, _) => case PlayResume =>
  }

  lemma {:induction false} FillTurn(s: State, f: Frame) returns (actions: seq<Action>)
    requires Inv(s) && Awake(s) && !Rendering(s.play) && FirstFilled(s, f) && s.spu.active == 1
    ensures Allowed(s, actions) && var r := After(s, actions);
            Inv(r) && Aside(s, r) && r.play == PlayWait && !r.spu.suspended && FirstFilled(r, f)
    decreases FillLeft(s.play)
  {
    OneFill(s, f);
    StepKeeps(s, PlayStep);
    var r, rest := AfterFill(s), [];
    if !Rendering(r.play) {
      rest := FillTurn(r, f);
    }
    actions := StepThen(s, PlayStep, rest);
  }

  // ---------------------------------------------------------------- the rest of the clear

  function ClearLeft(pc: RpcPc): (n: int)
    requires pc.StartClear?
  {
    (2 - pc.block) * 2048 - 2 * pc.sample - (if pc.high then 1 else 0)
  }

  /** The first right sample of block 0 is gone, or still to be cleared. */
  predicate RightGoes(s: State)
    requires s.rpc.StartClear? && Sized(s)
  {
    if s.rpc.block > 0 || s.rpc.sample > 256 then s.blocks[0][256] == 0
    else s.rpc.sample == 256 && s.rpc.high ==> s.blocks[0][256] % 256 == 0
  }

  /** A clear that is past the first sample of block 0. */
  predicate PastFirst(pc: RpcPc) {
    pc.StartClear? && (pc.block > 0 || pc.sample > 0)
  }

  lemma OneClear(s: State)
    requires Inv(s) && PastFirst(s.rpc) && s.rpc.block < 2 && RightGoes(s) && !s.spu.suspended
    ensures Enabled(s, RpcStep) && var r := AfterRpc(s);
            && Sized(r) && PastFirst(r.rpc) && RightGoes(r) && r.blocks[0][0] == s.blocks[0][0]
            && r == s.(blocks := r.blocks, rpc := r.rpc) && 0 <= ClearLeft(r.rpc) < ClearLeft(s.rpc)
  {
  }

  lemma {:induction false} ClearTurn(s: State) returns (actions: seq<Action>)
    requires Inv(s) && PastFirst(s.rpc) && RightGoes(s) && !s.spu.suspended
    ensures Allowed(s, actions) && var r := After(s, actions);
            && Inv(r) && r.rpc.StartClear? && r.rpc.block == 2 && r == s.(blocks := r.blocks, rpc := r.rpc)
            && r.blocks[0][0] == s.blocks[0][0] && r.blocks[0][256] == 0
    decreases ClearLeft(s.rpc)
  {
    if s.rpc.block == 2 {
      actions := [];
    } else {
      OneClear(s);
      StepKeeps(s, RpcStep);
      var rest := ClearTurn(AfterRpc(s));
      actions := StepThen(s, RpcStep, rest);
    }
  }

  // ---------------------------------------------------------------- starting

  function Times(a: Action, n: nat): (actions: seq<Action>) {
    if n == 0 then [] else [a] + Times(a, n - 1)
  }

  lemma OneMore(s: State, a: Action, n: nat)
    requires Enabled(s, a) && Allowed(Next(s, a), Times(a, n))
    ensures Allowed(s, Times(a, n + 1)) && After(s, Times(a, n + 1)) == After(Next(s, a), Times(a, n))
  {
    assert Times(a, n + 1)[1..] == Times(a, n);
  }

  /** From the end of the clear to the interrupt mask. */
  lemma Prepare(s: State)
    requires s.rpc.StartClear? && s.rpc.block >= 2 && !s.spu.suspended
    ensures Allowed(s, Times(RpcStep, 3))
    ensures After(s, Times(RpcStep, 3)) ==
            s.(history := s.history.(shown := [SilentBlock(), SilentBlock()]), rpc := StartRunning,
               spu := s.spu.(active := 0, inflight := Quiet))
  {
    var s1 := AfterRpc(s);
    var s2 := AfterRpc(s1);
    OneMore(s2, RpcStep, 0);
    OneMore(s1, RpcStep, 1);
    OneMore(s, RpcStep, 2);
  }

  /** Setting the stream running, and the first transfer. */
  lemma Fire(s: State)
    requires s.rpc == StartRunning && !s.spu.suspended
    ensures Allowed(s, Times(RpcStep, 2))
    ensures After(s, Times(RpcStep, 2)) == s.(rpc := StartFlag, spu := s.spu.(inflight := Block(0), running := true))
  {
    var s1 := AfterRpc(s);
    OneMore(s1, RpcStep, 0);
    OneMore(s, RpcStep, 1);
  }

  /** The end of the start call. */
  lemma Announce(s: State)
    requires s.rpc == StartFlag && !s.spu.suspended
    ensures Allowed(s, Times(RpcStep, 2))
    ensures After(s, Times(RpcStep, 2)) == s.(rpc := Ready, started := true, paused := false)
  {
    var s1 := AfterRpc(s);
    OneMore(s1, RpcStep, 0);
    OneMore(s, RpcStep, 1);
  }

  function LaunchSteps(): (actions: seq<Action>) {
    Times(RpcStep, 3) + Times(RpcStep, 2)
  }

  /** From the end of the clear to the first transfer. */
  lemma Launch(s: State)
    requires s.rpc.StartClear? && s.rpc.block >= 2 && !s.spu.suspended
    ensures Allowed(s, LaunchSteps())
    ensures After(s, LaunchSteps()) ==
            s.(history := s.history.(shown := [SilentBlock(), SilentBlock()]), rpc := StartFlag,
               spu := s.spu.(active := 0, inflight := Block(0), running := true))
  {
    Prepare(s);
    var r := After(s, Times(RpcStep, 3));
    Fire(r);
    RunsCompose(s, Times(RpcStep, 3), Times(RpcStep, 2));
  }

  function FirstSteps(): (actions: seq<Action>) {
    [Call(Start)] + Times(RpcStep, 2)
  }

  lemma TwoPasses(s: State)
    requires s.rpc == StartClear(0, 0, false) && !s.spu.suspended
    ensures Allowed(s, Times(RpcStep, 2))
    ensures var r := After(s, Times(RpcStep, 2)); r == s.(rpc := StartClear(0, 1, false), blocks := r.blocks)
  {
    var s1 := AfterRpc(s);
    OneMore(s1, RpcStep, 0);
    OneMore(s, RpcStep, 1);
  }

  /** The first two passes of the clear: the first left sample of block 0 is gone. */
  lemma FirstPasses(s: State)
    requires Inv(s) && s.rpc == Ready && !s.started && !s.spu.suspended
    ensures Allowed(s, FirstSteps()) && var r := After(s, FirstSteps());
            Inv(r) && r == s.(rpc := StartClear(0, 1, false), blocks := r.blocks)
  {
    TwoPasses(AfterCall(s, Start));
    CallThen(s, Start, 2);
    RunKeeps(s, FirstSteps());
  }

  /** A start that finds the play thread on its way, with frames to render. */
  predicate BadStart(s: State, f: Frame) {
    && s.rpc == Ready && !s.started && !s.spu.suspended && s.play == PlayEnter && !s.transferDone && !s.paused
    && s.spu.active == 1 && s.history.queue != [] && s.history.queue[0] == f
  }

  /**
   From such a start there is an interleaving that plays a torn block: its first frame has the left sample of the
   rendered frame, but not the right one.
   */
  lemma TornBlock(s: State, f: Frame) returns (actions: seq<Action>)
    requires Inv(s) && BadStart(s, f)
    ensures Allowed(s, actions) && var r := After(s, actions);
            && r.spu.inflight == Block(0) && |r.blocks| == 2 && |r.blocks[0]| == BLOCK_SAMPLES
            && Decode(r.blocks[0])[0] == Frame(f.left, 0) && r.history.shown == [SilentBlock(), SilentBlock()]
  {
    FirstPasses(s);
    var first := FirstSteps();
    var s1 := After(s, first);
    var render := RenderTurn(s1, f);
    var s2 := After(s1, render);
    var fill := FillTurn(s2, f);
    var s3 := After(s2, fill);
    var clear := ClearTurn(s3);
    var s4 := After(s3, clear);
    Launch(s4);
    RunsCompose(s3, clear, LaunchSteps());
    RunsCompose(s2, fill, clear + LaunchSteps());
    RunsCompose(s1, render, fill + (clear + LaunchSteps()));
    RunsCompose(s, first, render + (fill + (clear + LaunchSteps())));
    actions := first + (render + (fill + (clear + LaunchSteps())));
  }

  // ---------------------------------------------------------------- and there is such a start

  lemma CallThen(s: State, request: Request, n: nat)
    requires Enabled(s, Call(request)) && Allowed(AfterCall(s, request), Times(RpcStep, n))
    ensures Allowed(s, [Call(request)] + Times(RpcStep, n))
    ensures After(s, [Call(request)] + Times(RpcStep, n)) == After(AfterCall(s, request), Times(RpcStep, n))
  {
    assert ([Call(request)] + Times(RpcStep, n))[1..] == Times(RpcStep, n);
  }

  function StopActions(): (actions: seq<Action>) {
    [Call(Stop)] + Times(RpcStep, 2) + Times(RpcStep, 2)
  }

  lemma StopRun(s: State)
    requires s.rpc == Ready && s.started && !s.spu.suspended
    ensures Allowed(s, StopActions())
    ensures After(s, StopActions()) ==
            s.(spu := s.spu.(running := false, inflight := Quiet), started := false, paused := false)
  {
    var s1 := s.(rpc := StopRunning);
    var s2 := s.(spu := s.spu.(running := false, inflight := Quiet), rpc := StopFlag);
    Halt(s1);
    CallThen(s, Stop, 2);
    Forget(s2);
    RunsCompose(s, [Call(Stop)] + Times(RpcStep, 2), Times(RpcStep, 2));
  }

  lemma Halt(s: State)
    requires s.rpc == StopRunning && !s.spu.suspended
    ensures Allowed(s, Times(RpcStep, 2))
    ensures After(s, Times(RpcStep, 2)) == s.(spu := s.spu.(running := false, inflight := Quiet), rpc := StopFlag)
  {
    OneMore(AfterRpc(s), RpcStep, 0);
    OneMore(s, RpcStep, 1);
  }

  lemma Forget(s: State)
    requires s.rpc == StopFlag && !s.spu.suspended
    ensures Allowed(s, Times(RpcStep, 2))
    ensures After(s, Times(RpcStep, 2)) == s.(rpc := Ready, started := false, paused := false)
  {
    OneMore(AfterRpc(s), RpcStep, 0);
    OneMore(s, RpcStep, 1);
  }

  /** One frame submitted to an empty queue, up to the copy. */
  function CopyStart(s: State, f: Frame): (r: State) {
    s.(rpc := SubmitCopy([f], 0, 1, 0), mutex := Rpc, history := s.history.(before := s.history.accepted))
  }

  lemma EnterSubmit(s: State, f: Frame)
    requires s.rpc == Ready && s.mutex == Nobody && !s.spu.suspended && s.ring.queued < s.ring.limit
    ensures Enabled(s, Call(Submit([f])))
    ensures Allowed(AfterCall(s, Submit([f])), Times(RpcStep, 2))
    ensures After(AfterCall(s, Submit([f])), Times(RpcStep, 2)) == CopyStart(s, f)
  {
    var s1 := AfterCall(s, Submit([f]));
    var s2 := AfterRpc(s1);
    OneMore(s2, RpcStep, 0);
    OneMore(s1, RpcStep, 1);
  }

  lemma FinishSubmit(s: State, f: Frame)
    requires s.rpc == SubmitCopy([f], 0, 1, 0) && !s.spu.suspended && s.mutex == Rpc
    ensures Allowed(s, Times(RpcStep, 4)) && var r := After(s, Times(RpcStep, 4));
            && r == s.(rpc := Ready, mutex := Nobody, ring := r.ring, history := r.history)
            && r.history == s.history.(queue := s.history.queue + [f], accepted := s.history.accepted + [f])
  {
    var s1 := AfterRpc(s);
    var s2 := AfterRpc(s1);
    var s3 := AfterRpc(s2);
    assert [f][0..1] == [f];
    OneMore(s3, RpcStep, 0);
    OneMore(s2, RpcStep, 1);
    OneMore(s1, RpcStep, 2);
    OneMore(s, RpcStep, 3);
  }

  /** A start with nobody in between. */
  lemma StartRun(s: State) returns (actions: seq<Action>)
    requires Inv(s) && s.rpc == Ready && !s.started && !s.spu.suspended
    ensures Allowed(s, actions) && var r := After(s, actions);
            && r == s.(started := true, paused := false,
                       spu := s.spu.(active := 0, inflight := Block(0), running := true),
                       blocks := r.blocks, history := s.history.(shown := r.history.shown))
  {
    FirstPasses(s);
    var first := FirstSteps();
    var s1 := After(s, first);
    var clear := ClearTurn(s1);
    var s2 := After(s1, clear);
    Launch(s2);
    var s3 := After(s2, LaunchSteps());
    Announce(s3);
    RunsCompose(s2, LaunchSteps(), Times(RpcStep, 2));
    RunsCompose(s1, clear, LaunchSteps() + Times(RpcStep, 2));
    RunsCompose(s, first, clear + (LaunchSteps() + Times(RpcStep, 2)));
    actions := first + (clear + (LaunchSteps() + Times(RpcStep, 2)));
  }

  /** Start, one transfer done, one frame submitted, stop, and the play thread wakes: the next start is bad. */
  lemma BadStartReached(f: Frame) returns (actions: seq<Action>)
    ensures Allowed(Initial(), actions) && BadStart(After(Initial(), actions), f)
  {
    InitialHolds();
    var start := StartRun(Initial());
    var s1 := After(Initial(), start);
    var s2 := AfterDma(s1);
    var submit := [Call(Submit([f]))] + Times(RpcStep, 2);
    EnterSubmit(s2, f);
    CallThen(s2, Submit([f]), 2);
    var s3 := After(s2, submit);
    FinishSubmit(s3, f);
    var s4 := After(s3, Times(RpcStep, 4));
    var stop := StopActions();
    StopRun(s4);
    var s5 := After(s4, stop);
    assert [PlayStep][1..] == [];
    assert After(s5, [PlayStep]) == After(Next(s5, PlayStep), []);
    RunsCompose(s4, stop, [PlayStep]);
    RunsCompose(s3, Times(RpcStep, 4), stop + [PlayStep]);
    RunsCompose(s2, submit, Times(RpcStep, 4) + (stop + [PlayStep]));
    var rest := StepThen(s1, DmaDone, submit + (Times(RpcStep, 4) + (stop + [PlayStep])));
    RunsCompose(Initial(), start, rest);
    actions := start + rest;
  }

  /**
   Without the priorities, a run exists that plays a block whose first frame is neither a rendered frame nor
   silence; such a run has a start that did not find the play thread asleep.
   */
  lemma PrioritiesNeeded(f: Frame) returns (s: State, actions: seq<Action>)
    requires f.left != 0 && f.right != 0
    ensures Reached(s, actions) && !CalmRun(Initial(), actions)
    ensures s.spu.inflight == Block(0) && |s.blocks| == 2 && |s.blocks[0]| == BLOCK_SAMPLES
    ensures var first := Decode(s.blocks[0])[0]; first == Frame(f.left, 0) && first != f && first != SILENCE
  {
    var before := BadStartReached(f);
    var t := After(Initial(), before);
    InitialHolds();
    RunKeeps(Initial(), before);
    var torn := TornBlock(t, f);
    RunsCompose(Initial(), before, torn);
    actions := before + torn;
    s := After(Initial(), actions);
    assert SilentBlock()[0] == SILENCE;
    if CalmRun(Initial(), actions) {
      PlaysWholeBlocks(s, actions);
    }
  }
}
