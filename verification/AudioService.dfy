/**
 The IOP audio service as interleaved atomic steps: the RPC thread, the play thread, and the DMA of the
 SPU2 with its completion interrupt.

 A thread step is one semaphore call, one loop pass, one assignment to a shared variable, or one group of
 assignments to variables that only the mutex holder touches. Any enabled step may come next: thread priorities
 play no part here. While the play thread has interrupts suspended, no other thread runs and a completion
 interrupt stays pending; otherwise the interrupt handler runs at once.
 */
module AudioService {
  import opened Machine
  import opened Resampler
  import opened AudioRing

  datatype Owner = Nobody | Rpc | Play

  datatype Transfer = Quiet | Block(index: nat)

  datatype RpcPc =
    | Ready
    | SubmitEnter(samples: seq<Frame>, source: nat)
    | SubmitCheck(samples: seq<Frame>, source: nat)
    | SubmitFull(samples: seq<Frame>, source: nat)
    | SubmitWait(samples: seq<Frame>, source: nat)
    | SubmitCopy(samples: seq<Frame>, source: nat, count: nat, i: nat)
    | SubmitRelease(samples: seq<Frame>, source: nat)
    | FlushEnter | FlushHold | FlushRelease | FlushSignal
    | LatencySignal
    | StartClear(block: nat, sample: nat, high: bool)
    | StartActive | StartMask | StartRunning | StartLaunch | StartFlag | StartUnpause
    | StopRunning | StopMask | StopFlag | StopUnpause

  datatype PlayPc =
    | PlayWait | PlayEnter | PlayTake
    | PlayCopy(take: nat, i: nat)
    | PlayUnderrun(take: nat) | PlayRelease(take: nat) | PlaySignal
    | PlaySuspend | PlayPick
    | PlayBlock(idle: nat, i: nat)
    | PlayResume

  /** The ring and its counters. */
  datatype Ring = Ring(slots: seq<Frame>, read: nat, write: nat, queued: nat, limit: nat)

  /** The SPU2 side: the ping-pong state and the interrupt mask. */
  datatype Spu = Spu(running: bool, active: nat, inflight: Transfer, suspended: bool, pending: bool)

  /** What the state stands for; no step depends on it. */
  datatype History = History(
    queue: seq<Frame>,       // submitted and not yet rendered
    accepted: seq<Frame>,    // taken into the ring since the last flush
    rendered: seq<Frame>,    // rendered since the last flush
    before: seq<Frame>,      // accepted when the current submit call began
    shown: seq<seq<Frame>>)  // the frames each SPU2 block was last filled with

  datatype State = State(
    ring: Ring, underruns: u32, overruns: u32, paused: bool, started: bool,
    mutex: Owner, space: bool, transferDone: bool,
    rpc: RpcPc, play: PlayPc, spu: Spu,
    render: seq<Frame>, blocks: seq<seq<s16>>,
    history: History)

  datatype Request = Submit(frames: seq<Frame>) | Flush | SetLatency(ms: u32) | Start | Pause | Resume | Stop

  datatype Action = Call(request: Request) | RpcStep | PlayStep | DmaDone

  function SilentBlock(): (r: seq<Frame>) {
    seq(BLOCK_FRAMES, (i: int) => SILENCE)
  }

  function SilentBuffer(): (r: seq<seq<s16>>) {
    [Encode(SilentBlock()), Encode(SilentBlock())]
  }

  /** The service right after initialization. */
  function Initial(): (s: State) {
    State(Ring(seq(RING_FRAMES, (i: int) => SILENCE), 0, 0, 0, RING_FRAMES), 0, 0, false, false,
          Nobody, false, false, Ready, PlayWait, Spu(false, 0, Quiet, false, false),
          SilentBlock(), SilentBuffer(), History([], [], [], [], [SilentBlock(), SilentBlock()]))
  }

  // ---------------------------------------------------------------- steps

  /** Which waits are over; a suspended CPU runs nothing but the play thread. */
  predicate Enabled(s: State, a: Action) {
    match a
    case Call(_) => s.rpc.Ready? && !s.spu.suspended
    case RpcStep =>
      && !s.rpc.Ready? && !s.spu.suspended
      && (s.rpc.SubmitEnter? && s.rpc.source < |s.rpc.samples| ==> s.mutex == Nobody)
      && (s.rpc.FlushEnter? ==> s.mutex == Nobody)
      && (s.rpc.SubmitWait? ==> s.space)
    case PlayStep =>
      && (s.play.PlayWait? ==> s.transferDone)
      && (s.play.PlayEnter? ==> s.mutex == Nobody)
    case DmaDone => s.spu.inflight.Block? && !s.spu.pending
  }

  function AfterCall(s: State, request: Request): (r: State) {
    match request
    case Submit(frames) =>
      if |frames| > MAX_SUBMIT then s
      else s.(rpc := SubmitEnter(frames, 0), history := s.history.(before := s.history.accepted))
    case Flush => s.(rpc := FlushEnter)
    case SetLatency(ms) =>
      if ms == 0 || ms > MAX_LATENCY_MS then s else s.(ring := s.ring.(limit := LimitFor(ms)), rpc := LatencySignal)
    case Start => if s.started then s else s.(rpc := StartClear(0, 0, false))
    case Pause => if !s.started then s else s.(paused := true)
    case Resume => if !s.started then s else s.(paused := false)
    case Stop => if !s.started then s.(paused := false) else s.(rpc := StopRunning)
  }

  predicate Submitting(pc: RpcPc) {
    pc.SubmitEnter? || pc.SubmitCheck? || pc.SubmitFull? || pc.SubmitWait? || pc.SubmitCopy? || pc.SubmitRelease?
  }

  predicate Switching(pc: RpcPc) {
    || pc.StartClear? || pc.StartActive? || pc.StartMask? || pc.StartRunning? || pc.StartLaunch? || pc.StartFlag?
    || pc.StartUnpause? || pc.StopRunning? || pc.StopMask? || pc.StopFlag? || pc.StopUnpause?
  }

  /** The submit loop. */
  function AfterSubmit(s: State): (r: State)
    requires Submitting(s.rpc)
  {
    match s.rpc
    case SubmitEnter(samples, source) =>
      if source >= |samples| then s.(rpc := Ready) else s.(mutex := Rpc, rpc := SubmitCheck(samples, source))
    case SubmitCheck(samples, source) =>
      if s.ring.queued >= s.ring.limit then s.(overruns := (s.overruns + 1) % TWO32, rpc := SubmitFull(samples, source))
      else s.(rpc := SubmitCopy(samples, source, Max(Min(|samples| - source, s.ring.limit - s.ring.queued), 0), 0))
    case SubmitFull(samples, source) => s.(mutex := Nobody, rpc := SubmitWait(samples, source))
    case SubmitWait(samples, source) => s.(space := false, rpc := SubmitEnter(samples, source))
    case SubmitCopy(samples, source, count, i) =>
      if i < count then s.(ring := Stored(s.ring, samples, source, i), rpc := SubmitCopy(samples, source, count, i + 1))
      else
        s.(ring := s.ring.(write := Slot(s.ring.write, count), queued := s.ring.queued + count),
           rpc := SubmitRelease(samples, source + count), history := Accept(s.history, samples, source, count))
    case SubmitRelease(samples, source) => s.(mutex := Nobody, rpc := SubmitEnter(samples, source))
  }

  function Stored(ring: Ring, samples: seq<Frame>, source: nat, i: nat): (r: Ring) {
    if source + i < |samples| && |ring.slots| == RING_FRAMES then
      ring.(slots := ring.slots[Slot(ring.write, i) := samples[source + i]])
    else ring
  }

  function Accept(h: History, samples: seq<Frame>, source: nat, count: nat): (r: History) {
    if source + count <= |samples| then
      h.(queue := h.queue + samples[source..source + count], accepted := h.accepted + samples[source..source + count])
    else h
  }

  /** One pass of clearing the SPU2 buffer: the low or the high byte of one sample. */
  function ClearedOnce(blocks: seq<seq<s16>>, block: nat, sample: nat, high: bool): (r: seq<seq<s16>>) {
    if block < |blocks| && sample < |blocks[block]| then
      var v := blocks[block][sample];
      blocks[block := blocks[block][sample := if high then v % 256 else v - v % 256]]
    else blocks
  }

  function NextByte(block: nat, sample: nat, high: bool): (r: RpcPc) {
    if !high then StartClear(block, sample, true)
    else if sample + 1 < BLOCK_SAMPLES then StartClear(block, sample + 1, false)
    else StartClear(block + 1, 0, false)
  }

  /** Starting and stopping the SPU2 stream. */
  function AfterSwitch(s: State): (r: State)
    requires Switching(s.rpc)
  {
    match s.rpc
    case StartClear(block, sample, high) =>
      if block < 2 then s.(blocks := ClearedOnce(s.blocks, block, sample, high), rpc := NextByte(block, sample, high))
      else s.(history := s.history.(shown := [SilentBlock(), SilentBlock()]), rpc := StartActive)
    case StartActive => s.(spu := s.spu.(active := 0), rpc := StartMask)
    case StartMask => s.(spu := s.spu.(inflight := Quiet), rpc := StartRunning)
    case StartRunning => s.(spu := s.spu.(running := true), rpc := StartLaunch)
    case StartLaunch => s.(spu := s.spu.(inflight := Block(0)), rpc := StartFlag)
    case StartFlag => s.(started := true, rpc := StartUnpause)
    case StartUnpause => s.(paused := false, rpc := Ready)
    case StopRunning => s.(spu := s.spu.(running := false), rpc := StopMask)
    case StopMask => s.(spu := s.spu.(inflight := Quiet), rpc := StopFlag)
    case StopFlag => s.(started := false, rpc := StopUnpause)
    case StopUnpause => s.(paused := false, rpc := Ready)
  }

  /** Flush and latency. */
  function AfterControl(s: State): (r: State) {
    match s.rpc
    case FlushEnter => s.(mutex := Rpc, rpc := FlushHold)
    case FlushHold =>
      s.(ring := s.ring.(read := 0, write := 0, queued := 0), rpc := FlushRelease,
         history := s.history.(queue := [], accepted := [], rendered := []))
    case FlushRelease => s.(mutex := Nobody, rpc := FlushSignal)
    case FlushSignal => s.(space := true, rpc := Ready)
    case LatencySignal => s.(space := true, rpc := Ready)
    case _ => s
  }

  function AfterRpc(s: State): (r: State) {
    if Submitting(s.rpc) then AfterSubmit(s) else if Switching(s.rpc) then AfterSwitch(s) else AfterControl(s)
  }

  predicate Rendering(pc: PlayPc) {
    || pc.PlayWait? || pc.PlayEnter? || pc.PlayTake? || pc.PlayCopy?
    || pc.PlayUnderrun? || pc.PlayRelease? || pc.PlaySignal?
  }

  /** The frame rendered at position `i` when `take` frames are taken. */
  function Rendered(ring: Ring, take: nat, i: nat): (f: Frame) {
    if i < take && |ring.slots| == RING_FRAMES then ring.slots[Slot(ring.read, i)] else SILENCE
  }

  /** Waiting for a transfer and rendering the next block from the ring. */
  function AfterRender(s: State): (r: State)
    requires Rendering(s.play)
  {
    match s.play
    case PlayWait => s.(transferDone := false, play := PlayEnter)
    case PlayEnter => s.(mutex := Play, play := PlayTake)
    case PlayTake => s.(play := PlayCopy(if s.paused then 0 else Min(s.ring.queued, BLOCK_FRAMES), 0))
    case PlayCopy(take, i) =>
      if i < |s.render| then s.(render := s.render[i := Rendered(s.ring, take, i)], play := PlayCopy(take, i + 1))
      else
        s.(ring := s.ring.(read := Slot(s.ring.read, take), queued := Max(s.ring.queued - take, 0)),
           play := PlayUnderrun(take), history := Drop(s.history, take))
    case PlayUnderrun(take) =>
      s.(underruns := if !s.paused && take < BLOCK_FRAMES then (s.underruns + 1) % TWO32 else s.underruns,
         play := PlayRelease(take))
    case PlayRelease(take) => s.(mutex := Nobody, play := if take != 0 then PlaySignal else PlaySuspend)
    case PlaySignal => s.(space := true, play := PlaySuspend)
  }

  function Drop(h: History, take: nat): (r: History) {
    if take <= |h.queue| then h.(queue := h.queue[take..], rendered := h.rendered + h.queue[..take]) else h
  }

  /** Copying the render block into the idle SPU2 block with interrupts suspended. */
  function AfterFill(s: State): (r: State)
    requires !Rendering(s.play)
  {
    match s.play
    case PlaySuspend => s.(spu := s.spu.(suspended := true), play := PlayPick)
    case PlayPick => s.(play := PlayBlock(Other(s.spu.active), 0))
    case PlayBlock(idle, i) =>
      if i < 256 then s.(blocks := FilledOnce(s.blocks, s.render, idle, i), play := PlayBlock(idle, i + 1))
      else
        s.(play := PlayResume,
           history := if idle < |s.history.shown|
                       then s.history.(shown := s.history.shown[idle := s.render]) else s.history)
    case PlayResume =>
      var r := s.(spu := s.spu.(suspended := false, pending := false), play := PlayWait);
      if s.spu.pending then Interrupt(r) else r
  }

  function AfterPlay(s: State): (r: State) {
    if Rendering(s.play) then AfterRender(s) else AfterFill(s)
  }

  /** One pass of the copy into the SPU2 block. */
  function WithFour(block: seq<s16>, render: seq<Frame>, i: nat): (r: seq<s16>)
    requires |block| == BLOCK_SAMPLES && |render| == BLOCK_FRAMES && i < 256
    ensures |r| == BLOCK_SAMPLES
  {
    block[i := render[i].left][256 + i := render[i].right]
         [512 + i := render[256 + i].left][768 + i := render[256 + i].right]
  }

  function FilledOnce(blocks: seq<seq<s16>>, render: seq<Frame>, idle: nat, i: nat): (r: seq<seq<s16>>) {
    if idle < |blocks| && |blocks[idle]| == BLOCK_SAMPLES && |render| == BLOCK_FRAMES && i < 256 then
      blocks[idle := WithFour(blocks[idle], render, i)]
    else blocks
  }

  function Other(block: nat): (r: nat) {
    if block == 0 then 1 else 0
  }

  /** The completion handler: switch to the other block, start it, wake the play thread. */
  function Interrupt(s: State): (r: State) {
    if !s.spu.running then s
    else s.(spu := s.spu.(active := Other(s.spu.active), inflight := Block(Other(s.spu.active))), transferDone := true)
  }

  function AfterDma(s: State): (r: State) {
    if s.spu.suspended then s.(spu := s.spu.(inflight := Quiet, pending := true))
    else Interrupt(s.(spu := s.spu.(inflight := Quiet)))
  }

  function Next(s: State, a: Action): (r: State) {
    match a
    case Call(request) => AfterCall(s, request)
    case RpcStep => AfterRpc(s)
    case PlayStep => AfterPlay(s)
    case DmaDone => AfterDma(s)
  }

  // ---------------------------------------------------------------- invariants

  predicate RpcHolds(pc: RpcPc) {
    pc.SubmitCheck? || pc.SubmitFull? || pc.SubmitCopy? || pc.SubmitRelease? || pc.FlushHold? || pc.FlushRelease?
  }

  predicate PlayHolds(pc: PlayPc) {
    pc.PlayTake? || pc.PlayCopy? || pc.PlayUnderrun? || pc.PlayRelease?
  }

  predicate Exclusive(s: State) {
    && (s.mutex == Rpc <==> RpcHolds(s.rpc))
    && (s.mutex == Play <==> PlayHolds(s.play))
  }

  /** Frames the RPC thread has stored behind the window but not yet counted. */
  function Uncounted(pc: RpcPc): (r: seq<Frame>) {
    if pc.SubmitCopy? && pc.source + pc.i <= |pc.samples| then pc.samples[pc.source..pc.source + pc.i] else []
  }

  ghost predicate RingHolds(ring: Ring, queue: seq<Frame>, uncounted: seq<Frame>) {
    && ring.queued == |queue| <= RING_FRAMES
    && BLOCK_FRAMES <= ring.limit <= RING_FRAMES
    && ring.write == Slot(ring.read, ring.queued)
    && Holds(ring.slots, ring.read, queue + uncounted)
  }

  /** Where the RPC thread is in its samples. */
  predicate SubmitPlace(rpc: RpcPc, ring: Ring, h: History) {
    && (Submitting(rpc) ==> rpc.source <= |rpc.samples| && h.accepted == h.before + rpc.samples[..rpc.source])
    && (rpc.SubmitCheck? ==> rpc.source < |rpc.samples|)
    && (rpc.SubmitFull? ==> ring.queued >= ring.limit)
    && (rpc.SubmitCopy? ==>
          rpc.i <= rpc.count && rpc.source + rpc.count <= |rpc.samples| && ring.queued + rpc.count <= ring.limit)
    && h.accepted == h.rendered + h.queue
  }

  predicate PlayOwes(pc: PlayPc) {
    pc.PlaySignal? || ((pc.PlayUnderrun? || pc.PlayRelease?) && pc.take != 0)
  }

  /** A submitter that waits although there is room will be woken. */
  predicate WakeUp(s: State) {
    s.rpc.SubmitWait? && s.ring.queued < s.ring.limit ==> s.space || PlayOwes(s.play)
  }

  ghost predicate RenderHolds(play: PlayPc, render: seq<Frame>, queue: seq<Frame>) {
    && |render| == BLOCK_FRAMES
    && (play.PlayCopy? ==>
          && (play.take == 0 || play.take == Min(|queue|, BLOCK_FRAMES)) && play.i <= BLOCK_FRAMES
          && render[..play.i] == Padded(queue[..play.take])[..play.i])
  }

  predicate Starting(pc: RpcPc) {
    pc.StartClear? || pc.StartActive? || pc.StartMask? || pc.StartRunning?
  }

  /** The interrupt side: what is in flight, and when. */
  predicate SpuHolds(spu: Spu, rpc: RpcPc, play: PlayPc, started: bool) {
    && spu.active <= 1
    && (spu.suspended <==> play.PlayPick? || play.PlayBlock? || play.PlayResume?)
    && (spu.pending ==> spu.suspended && spu.inflight == Quiet)
    && (spu.inflight.Block? ==> spu.inflight.index == spu.active)
    && (play.PlayBlock? ==> play.idle == Other(spu.active))
    && (spu.running && !rpc.StartLaunch? ==> spu.inflight.Block? || spu.pending)
    && (Starting(rpc) || rpc.StopFlag? ==> !spu.running && spu.inflight == Quiet)
    && (rpc.StartMask? || rpc.StartRunning? || rpc.StartLaunch? ==> spu.active == 0)
    && (rpc.StartLaunch? ==> spu.running && spu.inflight == Quiet && !spu.pending)
    && (rpc.StartFlag? ==> spu.running)
    && (rpc.StopMask? ==> !spu.running)
    && (rpc.StopMask? || rpc.StopRunning? || rpc.StopFlag? ==> started)
    && (Starting(rpc) || rpc.StartLaunch? || rpc.StartFlag? ==> !started)
    && (started && !rpc.StopMask? && !rpc.StopFlag? ==> spu.running)
    && (!started && !rpc.StartLaunch? && !rpc.StartFlag? ==> !spu.running && spu.inflight == Quiet)
  }

  /** The two SPU2 blocks, the render block and the places in them. */
  predicate Sized(s: State) {
    && |s.blocks| == 2 && |s.history.shown| == 2 && |s.blocks[0]| == |s.blocks[1]| == BLOCK_SAMPLES
    && |s.render| == BLOCK_FRAMES
    && (s.play.PlayBlock? ==> s.play.idle < 2 && s.play.i <= 256)
    && (s.rpc.StartClear? ==> s.rpc.block <= 2 && s.rpc.sample < BLOCK_SAMPLES)
  }

  ghost predicate Inv(s: State) {
    && Exclusive(s)
    && RingHolds(s.ring, s.history.queue, Uncounted(s.rpc))
    && SubmitPlace(s.rpc, s.ring, s.history)
    && WakeUp(s)
    && RenderHolds(s.play, s.render, s.history.queue)
    && SpuHolds(s.spu, s.rpc, s.play, s.started)
    && Sized(s)
  }

  // ---------------------------------------------------------------- every step keeps the invariant

  lemma InitialRing()
    ensures RingHolds(Initial().ring, [], [])
  {
    var none: seq<Frame> := [];
    assert none + none == none;
  }

  lemma InitialHolds()
    ensures Inv(Initial())
  {
    var s := Initial();
    InitialRing();
  }

  /** A call changes only where the RPC thread is, and the settings its request names. */
  lemma CallFrame(s: State, request: Request)
    ensures var r := AfterCall(s, request);
            && r.spu == s.spu && r.blocks == s.blocks && r.started == s.started
            && r.play == s.play && r.render == s.render
            && r.history == s.history.(before := r.history.before) && r.mutex == s.mutex && r.space == s.space
            && r.ring == s.ring.(limit := r.ring.limit)
  {
    match request
    case Submit(_) => case Flush => case SetLatency(_) => case Start => case Pause => case Resume => case Stop =>
  }

  lemma CallKeepsRing(s: State, request: Request)
    requires RingHolds(s.ring, s.history.queue, Uncounted(s.rpc)) && s.rpc.Ready?
    ensures var r := AfterCall(s, request); RingHolds(r.ring, r.history.queue, Uncounted(r.rpc))
  {
    CallFrame(s, request);
    if request.SetLatency? && 1 <= request.ms {
      LimitForShape(request.ms);
    }
    assert Uncounted(s.rpc) == [] == Uncounted(AfterCall(s, request).rpc);
  }

  lemma CallKeepsPlace(s: State, request: Request)
    requires SubmitPlace(s.rpc, s.ring, s.history) && s.rpc.Ready?
    ensures var r := AfterCall(s, request); SubmitPlace(r.rpc, r.ring, r.history)
  {
    CallFrame(s, request);
  }

  lemma CallKeepsSpu(s: State, request: Request)
    requires SpuHolds(s.spu, s.rpc, s.play, s.started) && s.rpc.Ready?
    ensures var r := AfterCall(s, request); SpuHolds(r.spu, r.rpc, r.play, r.started)
  {
    match request
    case Submit(_) => case Flush => case SetLatency(_) => case Start => case Pause => case Resume => case Stop =>
  }

  lemma CallKeepsLocks(s: State, request: Request)
    requires Exclusive(s) && s.rpc.Ready?
    ensures Exclusive(AfterCall(s, request)) && WakeUp(AfterCall(s, request))
  {
    match request
    case Submit(_) => case Flush => case SetLatency(_) => case Start => case Pause => case Resume => case Stop =>
  }

  lemma CallKeeps(s: State, request: Request)
    requires Inv(s) && Enabled(s, Call(request))
    ensures Inv(AfterCall(s, request))
  {
    CallFrame(s, request);
    CallKeepsRing(s, request);
    CallKeepsPlace(s, request);
    CallKeepsSpu(s, request);
    CallKeepsLocks(s, request);
    assert Sized(AfterCall(s, request));
  }

  /** One pass of the copy loop: one more frame stored behind the window. */
  lemma StoreKeepsRing(ring: Ring, queue: seq<Frame>, samples: seq<Frame>, source: nat, i: nat)
    requires source + i < |samples| && RingHolds(ring, queue, samples[source..source + i])
    requires ring.queued + i < RING_FRAMES
    ensures RingHolds(Stored(ring, samples, source, i), queue, samples[source..source + (i + 1)])
  {
    var stored := samples[source..source + i];
    StoreNext(ring.slots, ring.read, queue + stored, samples[source + i]);
    SliceGrows(queue, samples, source, i);
    SlotAdds(ring.read, ring.queued, i);
    assert |queue + stored| == ring.queued + i;
  }

  /** The end of the copy loop: the stored frames are counted. */
  lemma CountKeepsRing(ring: Ring, queue: seq<Frame>, stored: seq<Frame>)
    requires RingHolds(ring, queue, stored) && ring.queued + |stored| <= RING_FRAMES
    ensures RingHolds(ring.(write := Slot(ring.write, |stored|), queued := ring.queued + |stored|), queue + stored, [])
  {
    SlotAdds(ring.read, ring.queued, |stored|);
    assert (queue + stored) + [] == queue + stored;
  }

  lemma CopyPassKeepsRing(s: State)
    requires RingHolds(s.ring, s.history.queue, Uncounted(s.rpc)) && SubmitPlace(s.rpc, s.ring, s.history)
    requires s.rpc.SubmitCopy? && s.rpc.i < s.rpc.count
    ensures var r := AfterSubmit(s); RingHolds(r.ring, r.history.queue, Uncounted(r.rpc))
  {
    StoreKeepsRing(s.ring, s.history.queue, s.rpc.samples, s.rpc.source, s.rpc.i);
  }

  lemma CopyEndKeepsRing(s: State)
    requires RingHolds(s.ring, s.history.queue, Uncounted(s.rpc)) && SubmitPlace(s.rpc, s.ring, s.history)
    requires s.rpc.SubmitCopy? && s.rpc.i >= s.rpc.count
    ensures var r := AfterSubmit(s); RingHolds(r.ring, r.history.queue, Uncounted(r.rpc))
  {
    CountKeepsRing(s.ring, s.history.queue, s.rpc.samples[s.rpc.source..s.rpc.source + s.rpc.count]);
  }

  lemma SubmitKeepsRing(s: State)
    requires RingHolds(s.ring, s.history.queue, Uncounted(s.rpc)) && SubmitPlace(s.rpc, s.ring, s.history)
    requires Submitting(s.rpc)
    ensures var r := AfterSubmit(s); RingHolds(r.ring, r.history.queue, Uncounted(r.rpc))
  {
    if s.rpc.SubmitCopy? && s.rpc.i < s.rpc.count {
      CopyPassKeepsRing(s);
    } else if s.rpc.SubmitCopy? {
      CopyEndKeepsRing(s);
    } else {
      var r := AfterSubmit(s);
      assert r.ring == s.ring && r.history == s.history;
      assert Uncounted(s.rpc) == [] == Uncounted(r.rpc) by {
        if r.rpc.SubmitCopy? { assert r.rpc.i == 0; }
      }
    }
  }

  lemma SubmitKeepsPlace(s: State)
    requires SubmitPlace(s.rpc, s.ring, s.history) && Submitting(s.rpc)
    ensures var r := AfterSubmit(s); SubmitPlace(r.rpc, r.ring, r.history)
  {
    if s.rpc.SubmitCopy? && s.rpc.i >= s.rpc.count {
      CopyEndKeepsPlace(s);
    }
  }

  lemma CopyEndKeepsPlace(s: State)
    requires SubmitPlace(s.rpc, s.ring, s.history) && s.rpc.SubmitCopy? && s.rpc.i >= s.rpc.count
    ensures var r := AfterSubmit(s); SubmitPlace(r.rpc, r.ring, r.history)
  {
    AcceptKeeps(s.history, s.rpc.samples, s.rpc.source, s.rpc.count);
  }

  lemma AcceptKeeps(h: History, samples: seq<Frame>, source: nat, count: nat)
    requires source + count <= |samples|
    requires h.accepted == h.before + samples[..source] && h.accepted == h.rendered + h.queue
    ensures var r := Accept(h, samples, source, count);
            && r.accepted == r.before + samples[..source + count] && r.accepted == r.rendered + r.queue
  {
    var added := samples[source..source + count];
    assert samples[..source] + added == samples[..source + count];
    assert (h.before + samples[..source]) + added == h.before + (samples[..source] + added);
    assert (h.rendered + h.queue) + added == h.rendered + (h.queue + added);
  }

  /** Submitting touches neither the SPU2 side nor the play thread. */
  lemma SubmitFrame(s: State)
    requires Submitting(s.rpc)
    ensures var r := AfterSubmit(s);
            && r.spu == s.spu && r.blocks == s.blocks && r.started == s.started
            && r.play == s.play && r.render == s.render && r.history.shown == s.history.shown
  {
    match s.rpc
    case SubmitEnter(_, _) => case SubmitCheck(_, _) => case SubmitFull(_, _) =>
    case SubmitWait(_, _) => case SubmitCopy(_, _, _, _) => case SubmitRelease(_, _) =>
  }

  lemma SubmitSame(s: State)
    requires Submitting(s.rpc)
    ensures var r := AfterSubmit(s);
            && r.history.before == s.history.before
            && (if Submitting(r.rpc) then r.rpc.samples == s.rpc.samples else r.rpc.Ready?)
  {
    match s.rpc
    case SubmitEnter(_, _) => case SubmitCheck(_, _) => case SubmitFull(_, _) =>
    case SubmitWait(_, _) => case SubmitCopy(_, _, _, _) => case SubmitRelease(_, _) =>
  }

  lemma SubmitKeepsLocks(s: State)
    requires Exclusive(s) && WakeUp(s) && SubmitPlace(s.rpc, s.ring, s.history)
    requires Submitting(s.rpc) && Enabled(s, RpcStep)
    ensures var r := AfterSubmit(s); Exclusive(r) && WakeUp(r)
  {
    match s.rpc
    case SubmitEnter(_, _) => case SubmitCheck(_, _) => case SubmitFull(_, _) =>
    case SubmitWait(_, _) => case SubmitCopy(_, _, _, _) => case SubmitRelease(_, _) =>
  }

  lemma SubmitKeepsRender(s: State)
    requires Exclusive(s) && RenderHolds(s.play, s.render, s.history.queue) && Submitting(s.rpc)
    ensures var r := AfterSubmit(s); RenderHolds(r.play, r.render, r.history.queue)
  {
    SubmitFrame(s);
    assert s.play.PlayCopy? ==> AfterSubmit(s).history == s.history;
  }

  /** While no stream is being started or stopped, where the RPC thread is does not matter to the SPU2 side. */
  lemma SpuElsewhere(spu: Spu, rpc: RpcPc, rpc': RpcPc, play: PlayPc, started: bool)
    requires SpuHolds(spu, rpc, play, started) && !Switching(rpc) && !Switching(rpc')
    ensures SpuHolds(spu, rpc', play, started)
  {
  }

  lemma SubmitKeepsSpu(s: State)
    requires SpuHolds(s.spu, s.rpc, s.play, s.started) && Submitting(s.rpc)
    ensures var r := AfterSubmit(s); SpuHolds(r.spu, r.rpc, r.play, r.started)
  {
    SubmitFrame(s);
    SubmitSame(s);
    SpuElsewhere(s.spu, s.rpc, AfterSubmit(s).rpc, s.play, s.started);
  }

  lemma SubmitKeeps(s: State)
    requires Inv(s) && Submitting(s.rpc) && Enabled(s, RpcStep)
    ensures Inv(AfterSubmit(s))
  {
    SubmitFrame(s);
    SubmitKeepsRing(s);
    SubmitKeepsPlace(s);
    SubmitKeepsLocks(s);
    SubmitKeepsRender(s);
    SubmitKeepsSpu(s);
  }

  /** Starting and stopping touch neither the ring nor the play thread. */
  lemma SwitchFrame(s: State)
    requires Switching(s.rpc)
    ensures var r := AfterSwitch(s);
            && r.ring == s.ring && r.mutex == s.mutex && r.space == s.space && r.play == s.play && r.render == s.render
            && r.history == s.history.(shown := r.history.shown)
            && r.transferDone == s.transferDone && (Switching(r.rpc) || r.rpc.Ready?)
  {
    match s.rpc
    case StartClear(_, _, _) => case StartActive => case StartMask => case StartRunning => case StartLaunch =>
    case StartFlag => case StartUnpause => case StopRunning => case StopMask => case StopFlag => case StopUnpause =>
  }

  lemma SwitchKeepsSpu(s: State)
    requires SpuHolds(s.spu, s.rpc, s.play, s.started) && Switching(s.rpc) && Enabled(s, RpcStep)
    ensures var r := AfterSwitch(s); SpuHolds(r.spu, r.rpc, r.play, r.started)
  {
    match s.rpc
    case StartClear(_, _, _) => case StartActive => case StartMask => case StartRunning => case StartLaunch =>
    case StartFlag => case StartUnpause => case StopRunning => case StopMask => case StopFlag => case StopUnpause =>
  }

  lemma SwitchKeepsSizes(s: State)
    requires Sized(s) && Switching(s.rpc)
    ensures Sized(AfterSwitch(s))
  {
    match s.rpc
    case StartClear(_, _, _) => case StartActive => case StartMask => case StartRunning => case StartLaunch =>
    case StartFlag => case StartUnpause => case StopRunning => case StopMask => case StopFlag => case StopUnpause =>
  }

  lemma SwitchKeepsQueue(s: State)
    requires Exclusive(s) && WakeUp(s) && RenderHolds(s.play, s.render, s.history.queue) && Switching(s.rpc)
    requires RingHolds(s.ring, s.history.queue, Uncounted(s.rpc)) && SubmitPlace(s.rpc, s.ring, s.history)
    ensures var r := AfterSwitch(s);
            && Exclusive(r) && WakeUp(r) && RenderHolds(r.play, r.render, r.history.queue)
            && RingHolds(r.ring, r.history.queue, Uncounted(r.rpc)) && SubmitPlace(r.rpc, r.ring, r.history)
  {
    SwitchFrame(s);
    SameQueueKept(s, AfterSwitch(s));
  }

  lemma SameQueueKept(s: State, r: State)
    requires Exclusive(s) && WakeUp(s) && RenderHolds(s.play, s.render, s.history.queue) && Switching(s.rpc)
    requires RingHolds(s.ring, s.history.queue, Uncounted(s.rpc)) && SubmitPlace(s.rpc, s.ring, s.history)
    requires r.ring == s.ring && r.mutex == s.mutex && r.space == s.space && r.play == s.play && r.render == s.render
    requires r.history == s.history.(shown := r.history.shown) && (Switching(r.rpc) || r.rpc.Ready?)
    ensures Exclusive(r) && WakeUp(r) && RenderHolds(r.play, r.render, r.history.queue)
    ensures RingHolds(r.ring, r.history.queue, Uncounted(r.rpc)) && SubmitPlace(r.rpc, r.ring, r.history)
  {
  }

  lemma SwitchKeeps(s: State)
    requires Inv(s) && Switching(s.rpc) && Enabled(s, RpcStep)
    ensures Inv(AfterSwitch(s))
  {
    SwitchFrame(s);
    SwitchKeepsSpu(s);
    SwitchKeepsSizes(s);
    SwitchKeepsQueue(s);
  }

  /** Flush and latency touch neither the SPU2 side nor the play thread. */
  lemma ControlFrame(s: State)
    requires !Submitting(s.rpc) && !Switching(s.rpc)
    ensures var r := AfterControl(s);
            && r.spu == s.spu && r.blocks == s.blocks && r.started == s.started
            && r.play == s.play && r.render == s.render && r.history.shown == s.history.shown
            && !Submitting(r.rpc) && !Switching(r.rpc)
  {
    match s.rpc
    case Ready => case FlushEnter => case FlushHold => case FlushRelease => case FlushSignal => case LatencySignal =>
  }

  lemma ControlQuiet(s: State)
    requires !Submitting(s.rpc) && !Switching(s.rpc) && !s.rpc.FlushHold?
    ensures AfterControl(s).ring == s.ring && AfterControl(s).history == s.history
  {
    match s.rpc
    case Ready => case FlushEnter => case FlushRelease => case FlushSignal => case LatencySignal =>
  }

  lemma FlushKeepsQueue(s: State)
    requires RingHolds(s.ring, s.history.queue, Uncounted(s.rpc)) && s.rpc.FlushHold?
    ensures var r := AfterControl(s);
            RingHolds(r.ring, r.history.queue, Uncounted(r.rpc)) && SubmitPlace(r.rpc, r.ring, r.history)
  {
    assert [] + Uncounted(s.rpc) == [];
  }

  lemma ControlKeepsQueue(s: State)
    requires RingHolds(s.ring, s.history.queue, Uncounted(s.rpc)) && SubmitPlace(s.rpc, s.ring, s.history)
    requires !Submitting(s.rpc) && !Switching(s.rpc)
    ensures var r := AfterControl(s);
            RingHolds(r.ring, r.history.queue, Uncounted(r.rpc)) && SubmitPlace(r.rpc, r.ring, r.history)
  {
    if s.rpc.FlushHold? {
      FlushKeepsQueue(s);
    } else {
      ControlQuiet(s);
      ControlFrame(s);
    }
  }

  lemma ControlKeepsLocks(s: State)
    requires Exclusive(s) && WakeUp(s) && RenderHolds(s.play, s.render, s.history.queue)
    requires !Submitting(s.rpc) && !Switching(s.rpc) && Enabled(s, RpcStep)
    ensures var r := AfterControl(s); Exclusive(r) && WakeUp(r) && RenderHolds(r.play, r.render, r.history.queue)
  {
    match s.rpc
    case FlushEnter => case FlushHold => case FlushRelease => case FlushSignal => case LatencySignal =>
  }

  lemma ControlKeeps(s: State)
    requires Inv(s) && !Submitting(s.rpc) && !Switching(s.rpc) && Enabled(s, RpcStep)
    ensures Inv(AfterControl(s))
  {
    ControlFrame(s);
    ControlKeepsQueue(s);
    ControlKeepsLocks(s);
    SpuElsewhere(s.spu, s.rpc, AfterControl(s).rpc, s.play, s.started);
  }

  lemma RenderKeepsRing(s: State)
    requires Inv(s) && Rendering(s.play)
    ensures var r := AfterRender(s); RingHolds(r.ring, r.history.queue, Uncounted(r.rpc))
  {
    if s.play.PlayCopy? && s.play.i >= BLOCK_FRAMES {
      var q, take := s.history.queue, s.play.take;
      assert q + Uncounted(s.rpc) == q && q[take..] + Uncounted(s.rpc) == q[take..];
      HoldsRest(s.ring.slots, s.ring.read, q, take);
      SlotAdds(s.ring.read, take, s.ring.queued - take);
    }
  }

  lemma RenderKeepsRender(s: State)
    requires Inv(s) && Rendering(s.play)
    ensures var r := AfterRender(s); RenderHolds(r.play, r.render, r.history.queue)
  {
    if s.play.PlayCopy? && s.play.i < BLOCK_FRAMES {
      var take, i := s.play.take, s.play.i;
      var padded := Padded(s.history.queue[..take]);
      assert s.history.queue + Uncounted(s.rpc) == s.history.queue;
      assert Rendered(s.ring, take, i) == padded[i];
      assert s.render[i := padded[i]][..i + 1] == s.render[..i] + [padded[i]];
      assert padded[..i + 1] == padded[..i] + [padded[i]];
    }
  }

  /** Rendering touches neither the SPU2 side nor the submitter's place. */
  lemma RenderFrame(s: State)
    requires Rendering(s.play)
    ensures var r := AfterRender(s);
            && r.rpc == s.rpc && r.spu == s.spu && r.blocks == s.blocks && r.started == s.started
            && r.history.shown == s.history.shown && r.history.before == s.history.before
            && r.history.accepted == s.history.accepted && |r.render| == |s.render|
            && !s.play.PlayBlock? && !r.play.PlayBlock? && !r.play.PlayPick? && !r.play.PlayResume?
  {
    match s.play
    case PlayWait => case PlayEnter => case PlayTake => case PlayCopy(_, _) =>
    case PlayUnderrun(_) => case PlayRelease(_) => case PlaySignal =>
  }

  /** Only the end of the copy loop touches the ring and the queue. */
  lemma RenderQuiet(s: State)
    requires Rendering(s.play) && !(s.play.PlayCopy? && s.play.i >= |s.render|)
    ensures AfterRender(s).ring == s.ring && AfterRender(s).history == s.history
  {
    match s.play
    case PlayWait => case PlayEnter => case PlayTake => case PlayCopy(_, _) =>
    case PlayUnderrun(_) => case PlayRelease(_) => case PlaySignal =>
  }

  lemma DropKeepsPlace(s: State)
    requires SubmitPlace(s.rpc, s.ring, s.history) && Exclusive(s)
    requires RenderHolds(s.play, s.render, s.history.queue) && s.play.PlayCopy? && s.play.i >= BLOCK_FRAMES
    ensures var r := AfterRender(s); SubmitPlace(r.rpc, r.ring, r.history)
  {
    DropRegroups(s.history.rendered, s.history.queue, s.play.take);
  }

  lemma DropRegroups(rendered: seq<Frame>, queue: seq<Frame>, take: nat)
    requires take <= |queue|
    ensures (rendered + queue[..take]) + queue[take..] == rendered + queue
  {
  }

  lemma RenderKeepsPlace(s: State)
    requires SubmitPlace(s.rpc, s.ring, s.history)
    requires RenderHolds(s.play, s.render, s.history.queue) && Rendering(s.play)
    requires Exclusive(s)
    ensures var r := AfterRender(s); SubmitPlace(r.rpc, r.ring, r.history)
  {
    RenderFrame(s);
    if s.play.PlayCopy? && s.play.i >= BLOCK_FRAMES {
      DropKeepsPlace(s);
    } else {
      RenderQuiet(s);
    }
  }

  lemma RenderKeepsLocks(s: State)
    requires Exclusive(s) && WakeUp(s) && RenderHolds(s.play, s.render, s.history.queue)
    requires Rendering(s.play) && Enabled(s, PlayStep)
    ensures Exclusive(AfterRender(s)) && WakeUp(AfterRender(s))
  {
    match s.play
    case PlayWait => case PlayEnter => case PlayTake => case PlayCopy(_, _) =>
    case PlayUnderrun(_) => case PlayRelease(_) => case PlaySignal =>
  }

  lemma RenderKeeps(s: State)
    requires Inv(s) && Rendering(s.play) && Enabled(s, PlayStep)
    ensures Inv(AfterRender(s))
  {
    RenderFrame(s);
    RenderKeepsLocks(s);
    RenderKeepsRing(s);
    RenderKeepsPlace(s);
    RenderKeepsRender(s);
    var r := AfterRender(s);
    assert SpuHolds(r.spu, r.rpc, r.play, r.started);
  }

  lemma PassSized(blocks: seq<seq<s16>>, render: seq<Frame>, idle: nat, i: nat)
    requires |blocks| == 2 && |blocks[0]| == |blocks[1]| == BLOCK_SAMPLES
    ensures var r := FilledOnce(blocks, render, idle, i); |r| == 2 && |r[0]| == |r[1]| == BLOCK_SAMPLES
  {
  }

  /** Only the copy touches the blocks. */
  lemma FillPick(s: State)
    requires !Rendering(s.play) && !s.play.PlayBlock?
    ensures var r := AfterFill(s);
            && r.blocks == s.blocks && r.history.shown == s.history.shown
            && (r.play.PlayBlock? ==> r.play.i == 0 && r.play.idle < 2)
  {
  }

  lemma PassKeepsSizes(s: State)
    requires Sized(s) && s.play.PlayBlock?
    ensures Sized(AfterFill(s))
  {
    PassSized(s.blocks, s.render, s.play.idle, s.play.i);
  }

  lemma FillKeepsSizes(s: State)
    requires Sized(s) && !Rendering(s.play)
    ensures Sized(AfterFill(s))
  {
    if s.play.PlayBlock? {
      PassKeepsSizes(s);
    } else {
      FillPick(s);
      FillFrame(s);
    }
  }

  lemma FillKeepsSpu(s: State)
    requires SpuHolds(s.spu, s.rpc, s.play, s.started) && !Rendering(s.play)
    ensures var r := AfterFill(s); SpuHolds(r.spu, r.rpc, r.play, r.started)
  {
    match s.play
    case PlaySuspend => case PlayPick => case PlayBlock(_, _) =>
    case PlayResume => ResumeKeepsSpu(s);
  }

  lemma ResumeKeepsSpu(s: State)
    requires SpuHolds(s.spu, s.rpc, s.play, s.started) && s.play.PlayResume?
    ensures var r := AfterFill(s); SpuHolds(r.spu, r.rpc, r.play, r.started)
  {
  }

  lemma FillKeeps(s: State)
    requires Inv(s) && !Rendering(s.play)
    ensures Inv(AfterFill(s))
  {
    FillKeepsSizes(s);
    FillKeepsSpu(s);
    FillFrame(s);
    FillPlace(s);
  }

  /** Filling touches neither the ring nor the submitter. */
  lemma FillFrame(s: State)
    requires !Rendering(s.play)
    ensures var r := AfterFill(s);
            && r.ring == s.ring && r.rpc == s.rpc && r.mutex == s.mutex && r.space == s.space && r.render == s.render
            && r.history == s.history.(shown := r.history.shown)
  {
    if s.play.PlayResume? && s.spu.pending {
      InterruptFrame(s.(spu := s.spu.(suspended := false, pending := false), play := PlayWait));
    }
  }

  lemma InterruptFrame(s: State)
    ensures Interrupt(s) == s.(spu := Interrupt(s).spu, transferDone := Interrupt(s).transferDone)
  {
  }

  lemma FillPlace(s: State)
    requires !Rendering(s.play)
    ensures !PlayHolds(s.play) && !PlayHolds(AfterFill(s).play) && !PlayOwes(s.play) && !AfterFill(s).play.PlayCopy?
  {
  }

  lemma DmaFrame(s: State)
    ensures AfterDma(s) == s.(spu := AfterDma(s).spu, transferDone := AfterDma(s).transferDone)
  {
    InterruptFrame(s.(spu := s.spu.(inflight := Quiet)));
  }

  lemma DmaKeepsSpu(s: State)
    requires SpuHolds(s.spu, s.rpc, s.play, s.started) && Enabled(s, DmaDone)
    ensures SpuHolds(AfterDma(s).spu, s.rpc, s.play, s.started)
  {
  }

  lemma DmaKeeps(s: State)
    requires Inv(s) && Enabled(s, DmaDone)
    ensures Inv(AfterDma(s))
  {
    DmaFrame(s);
    DmaKeepsSpu(s);
  }

  lemma StepKeeps(s: State, a: Action)
    requires Inv(s) && Enabled(s, a)
    ensures Inv(Next(s, a))
  {
    match a
    case Call(request) => CallKeeps(s, request);
    case RpcStep =>
      if Submitting(s.rpc) { SubmitKeeps(s); } else if Switching(s.rpc) { SwitchKeeps(s); } else { ControlKeeps(s); }
    case PlayStep =>
      if Rendering(s.play) { RenderKeeps(s); } else { FillKeeps(s); }
    case DmaDone => DmaKeeps(s);
  }

  // ---------------------------------------------------------------- runs

  predicate Allowed(s: State, actions: seq<Action>)
    decreases actions
  {
    |actions| == 0 || (Enabled(s, actions[0]) && Allowed(Next(s, actions[0]), actions[1..]))
  }

  function After(s: State, actions: seq<Action>): (r: State)
    decreases actions
  {
    if |actions| == 0 then s else After(Next(s, actions[0]), actions[1..])
  }

  lemma {:induction false} RunKeeps(s: State, actions: seq<Action>)
    requires Inv(s) && Allowed(s, actions)
    ensures Inv(After(s, actions))
    decreases actions
  {
    if |actions| > 0 {
      StepKeeps(s, actions[0]);
      RunKeeps(Next(s, actions[0]), actions[1..]);
    }
  }

  lemma {:induction false} RunsCompose(s: State, a: seq<Action>, b: seq<Action>)
    requires Allowed(s, a) && Allowed(After(s, a), b)
    ensures Allowed(s, a + b) && After(s, a + b) == After(After(s, a), b)
    decreases a
  {
    if a == [] {
      assert a + b == b;
    } else {
      assert (a + b)[1..] == a[1..] + b;
      RunsCompose(Next(s, a[0]), a[1..], b);
    }
  }

  lemma StepThen(s: State, a: Action, rest: seq<Action>) returns (actions: seq<Action>)
    requires Enabled(s, a) && Allowed(Next(s, a), rest)
    ensures actions == [a] + rest
    ensures Allowed(s, actions) && After(s, actions) == After(Next(s, a), rest)
  {
    actions := [a] + rest;
    assert actions[1..] == rest;
  }

  /** A state some interleaving leads to. */
  ghost predicate Reached(s: State, actions: seq<Action>) {
    Allowed(Initial(), actions) && After(Initial(), actions) == s
  }

  lemma ReachedHolds(s: State, actions: seq<Action>)
    requires Reached(s, actions)
    ensures Inv(s)
  {
    InitialHolds();
    RunKeeps(Initial(), actions);
  }

  /** In every interleaving, whenever the mutex is free the ring is exactly the submitted, unrendered frames. */
  lemma RingIsFifo(s: State, actions: seq<Action>)
    requires Reached(s, actions) && s.mutex == Nobody
    ensures Holds(s.ring.slots, s.ring.read, s.history.queue)
    ensures s.ring.queued == |s.history.queue| <= RING_FRAMES
    ensures s.ring.write == (s.ring.read + s.ring.queued) % 4096
    ensures s.history.accepted == s.history.rendered + s.history.queue
  {
    ReachedHolds(s, actions);
    assert s.history.queue + Uncounted(s.rpc) == s.history.queue;
  }

  /** Until it returns, a submit keeps its frames and its starting point, whatever the other side does. */
  lemma SubmitKeepsItsFrames(s: State, a: Action)
    requires Enabled(s, a) && Submitting(s.rpc) && Submitting(Next(s, a).rpc)
    ensures Next(s, a).rpc.samples == s.rpc.samples && Next(s, a).history.before == s.history.before
  {
    match a
    case Call(_) =>
    case RpcStep => SubmitSame(s);
    case PlayStep => if Rendering(s.play) { RenderFrame(s); } else { FillFrame(s); }
    case DmaDone =>
  }

  /** Each rendered block is a FIFO prefix followed by silence, and exactly that prefix leaves the queue. */
  lemma RenderIsPrefix(s: State, actions: seq<Action>)
    requires Reached(s, actions) && s.play.PlayCopy? && s.play.i == BLOCK_FRAMES
    ensures var take, q, r := s.play.take, s.history.queue, AfterPlay(s);
            && (take == 0 || take == Min(|q|, BLOCK_FRAMES))
            && r.render == Padded(q[..take])
            && r.history.queue == q[take..] && r.history.rendered == s.history.rendered + q[..take]
  {
    ReachedHolds(s, actions);
    var padded := Padded(s.history.queue[..s.play.take]);
    assert s.render[..BLOCK_FRAMES] == s.render && padded[..BLOCK_FRAMES] == padded;
  }

  /** No lost wake-up: a submitter waiting although there is room has its signal set or on the way. */
  lemma NoLostWakeUp(s: State, actions: seq<Action>)
    requires Reached(s, actions) && s.rpc.SubmitWait? && s.ring.queued < s.ring.limit
    ensures s.space || PlayOwes(s.play)
  {
    ReachedHolds(s, actions);
  }

  lemma BlockUntouched(s: State, a: Action, b: nat)
    requires Enabled(s, a) && SpuHolds(s.spu, s.rpc, s.play, s.started) && s.spu.inflight == Block(b)
    requires b < |s.blocks|
    ensures b < |Next(s, a).blocks| && Next(s, a).blocks[b] == s.blocks[b]
  {
    match a
    case Call(_) =>
    case RpcStep => if Submitting(s.rpc) { SubmitFrame(s); }
    case PlayStep => if Rendering(s.play) { RenderFrame(s); } else { assert s.play.PlayBlock? ==> s.play.idle != b; }
    case DmaDone =>
  }

  /** The block in flight is the active one, is never the one being filled, and no step changes its samples. */
  lemma NoCollision(s: State, actions: seq<Action>, a: Action)
    requires Reached(s, actions) && s.spu.inflight.Block? && Enabled(s, a)
    ensures var b := s.spu.inflight.index;
            && b == s.spu.active && b < 2 == |s.blocks|
            && (s.play.PlayBlock? ==> s.play.idle == 1 - b)
            && b < |Next(s, a).blocks| && Next(s, a).blocks[b] == s.blocks[b]
  {
    ReachedHolds(s, actions);
    BlockUntouched(s, a, s.spu.inflight.index);
  }

  /** The finished copy shows the render block, and the other block is as it was. */
  lemma FillShowsRender(s: State)
    requires Inv(s) && s.play.PlayBlock? && s.play.i >= 256
    ensures s.play.idle < 2 == |s.history.shown|
    ensures AfterPlay(s).history.shown == s.history.shown[s.play.idle := s.render]
  {
  }

  /**
   The only way nothing can happen: a submitter waits on a full queue while the stream is stopped. A running
   stream, or room in the queue, always leaves some step enabled.
   */
  lemma StuckExactly(s: State, actions: seq<Action>)
    requires Reached(s, actions)
    ensures (forall a :: !Enabled(s, a)) <==>
            && s.rpc.SubmitWait? && !s.space && s.play.PlayWait? && !s.transferDone && s.spu.inflight == Quiet
    ensures (forall a :: !Enabled(s, a)) ==> s.ring.queued >= s.ring.limit && !s.spu.running
  {
    ReachedHolds(s, actions);
    if forall a :: !Enabled(s, a) {
      assert !Enabled(s, RpcStep) && !Enabled(s, PlayStep) && !Enabled(s, DmaDone) && !Enabled(s, Call(Flush));
    }
  }
}
