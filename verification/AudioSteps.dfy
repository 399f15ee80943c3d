/** The sequential ring code against the atomic steps: what one uninterrupted pass does, the steps do too. */
module AudioSteps {
  import opened Machine
  import opened Resampler
  import opened AudioRing
  import opened AudioService

  predicate Only(actions: seq<Action>, a: Action) {
    forall k :: 0 <= k < |actions| ==> actions[k] == a
  }

  /** The queue object and the state agree on everything a client can observe of the ring. */
  ghost predicate Shows(q: Queue, s: State)
    reads q
  {
    && q.queue == s.history.queue && q.limit == s.ring.limit
    && q.underruns == s.underruns && q.overruns == s.overruns && q.paused == s.paused && q.space == s.space
  }

  predicate SameSettings(s: State, r: State) {
    r.ring.limit == s.ring.limit && r.paused == s.paused && r.space == s.space
  }

  /** The copy that `s` is in has run to its end in `r`. */
  predicate Copied(s: State, r: State)
    requires s.rpc.SubmitCopy? && s.rpc.source + s.rpc.count <= |s.rpc.samples|
  {
    var samples, source, count := s.rpc.samples, s.rpc.source, s.rpc.count;
    && r.rpc == SubmitRelease(samples, source + count)
    && r.history.queue == s.history.queue + samples[source..source + count]
    && SameSettings(s, r) && r.overruns == s.overruns && r.underruns == s.underruns
  }

  lemma OneCopy(s: State)
    requires s.rpc.SubmitCopy? && s.rpc.source + s.rpc.count <= |s.rpc.samples|
    ensures var r := AfterSubmit(s);
            if s.rpc.i < s.rpc.count then
              && r.rpc == s.rpc.(i := s.rpc.i + 1) && r.history == s.history && SameSettings(s, r)
              && r.overruns == s.overruns && r.underruns == s.underruns
            else Copied(s, r)
  {
  }

  lemma {:induction false} CopyTurn(s: State) returns (actions: seq<Action>)
    requires Inv(s) && s.rpc.SubmitCopy? && !s.spu.suspended
    ensures Allowed(s, actions) && Only(actions, RpcStep) && Copied(s, After(s, actions))
    decreases s.rpc.count - s.rpc.i
  {
    OneCopy(s);
    StepKeeps(s, RpcStep);
    var r, rest := AfterRpc(s), [];
    assert Enabled(s, RpcStep);
    if s.rpc.i < s.rpc.count {
      SubmitFrame(s);
      rest := CopyTurn(r);
    }
    actions := StepThen(s, RpcStep, rest);
  }

  /** How many frames one pass takes. */
  function PassCount(s: State): (count: int)
    requires s.rpc.SubmitCheck?
  {
    Min(|s.rpc.samples| - s.rpc.source, Max(s.ring.limit - |s.history.queue|, 0))
  }

  /** The pass that `s` is about to check has been made in `r`. */
  predicate Passed(s: State, r: State)
    requires s.rpc.SubmitCheck? && s.rpc.source < |s.rpc.samples|
  {
    var samples, source, count := s.rpc.samples, s.rpc.source, PassCount(s);
    && r.rpc == (if count == 0 then SubmitFull(samples, source) else SubmitRelease(samples, source + count))
    && r.history.queue == s.history.queue + samples[source..source + count]
    && SameSettings(s, r) && r.underruns == s.underruns
    && r.overruns == (if count == 0 then (s.overruns + 1) % TWO32 else s.overruns)
  }

  lemma OneCheck(s: State)
    requires s.rpc.SubmitCheck? && s.rpc.source < |s.rpc.samples| && s.ring.queued == |s.history.queue|
    ensures var r := AfterSubmit(s);
            if PassCount(s) == 0 then Passed(s, r) && r.rpc.SubmitFull?
            else && r.rpc == SubmitCopy(s.rpc.samples, s.rpc.source, PassCount(s), 0) && r.history == s.history
                 && SameSettings(s, r) && r.overruns == s.overruns && r.underruns == s.underruns
  {
    assert s.rpc.samples[s.rpc.source..s.rpc.source] == [];
    assert s.history.queue + [] == s.history.queue;
  }

  /** The steps of the RPC thread from the check of the queue to its release. */
  lemma SubmitTurn(s: State) returns (actions: seq<Action>)
    requires Inv(s) && s.rpc.SubmitCheck? && !s.spu.suspended
    ensures Allowed(s, actions) && Only(actions, RpcStep) && Passed(s, After(s, actions))
  {
    OneCheck(s);
    StepKeeps(s, RpcStep);
    SubmitFrame(s);
    var r, rest := AfterRpc(s), [];
    if PassCount(s) != 0 {
      rest := CopyTurn(r);
    }
    actions := StepThen(s, RpcStep, rest);
  }

  /** The sequential pass and the RPC thread's steps do the same to the queue. */
  method SubmitPassIsSteps(q: Queue, samples: array<s16>, frames: nat, sourceFrame: nat, ghost s: State)
    returns (count: nat, ghost actions: seq<Action>)
    requires q.Valid() && samples.Length == 2 * frames && sourceFrame < frames && samples != q.ring
    requires Inv(s) && Shows(q, s) && s.rpc == SubmitCheck(FramesOf(samples[..]), sourceFrame) && !s.spu.suspended
    modifies q.ring, q`write, q`queued, q`overruns, q`queue
    ensures q.Valid() && Allowed(s, actions) && Only(actions, RpcStep) && Shows(q, After(s, actions))
    ensures sourceFrame + count <= frames
    ensures After(s, actions).rpc == if count == 0 then SubmitFull(FramesOf(old(samples[..])), sourceFrame)
                                     else SubmitRelease(FramesOf(old(samples[..])), sourceFrame + count)
  {
    ghost var source := FramesOf(samples[..]);
    actions := SubmitTurn(s);
    count := q.SubmitPass(samples, frames, sourceFrame);
    assert FramesOf(samples[..]) == source;
    PassedShows(s, After(s, actions), source, sourceFrame, count);
  }

  /** A pass from the check, read off the state before it. */
  lemma PassedShows(s: State, r: State, source: seq<Frame>, from: nat, count: nat)
    requires s.rpc == SubmitCheck(source, from) && from < |source| && Passed(s, r)
    requires count == Min(|source| - from, Max(s.ring.limit - |s.history.queue|, 0))
    ensures from + count <= |source| && r.history.queue == s.history.queue + source[from..from + count]
    ensures r.rpc == if count == 0 then SubmitFull(source, from) else SubmitRelease(source, from + count)
    ensures r.overruns == if count == 0 then (s.overruns + 1) % TWO32 else s.overruns
    ensures SameSettings(s, r) && r.underruns == s.underruns
  {
  }

  /** The render that `s` is in has run to its end, mutex released and submitter woken, in `r`. */
  predicate Done(s: State, r: State)
    requires s.play.PlayCopy? && s.play.take <= |s.history.queue| && s.play.take <= BLOCK_FRAMES
  {
    var take := s.play.take;
    && r.play == PlaySuspend
    && r.render == Padded(s.history.queue[..take]) && r.history.queue == s.history.queue[take..]
    && r.ring.limit == s.ring.limit && r.paused == s.paused && r.overruns == s.overruns
    && r.space == (s.space || take != 0)
    && r.underruns == (if !s.paused && take < BLOCK_FRAMES then (s.underruns + 1) % TWO32 else s.underruns)
  }

  lemma OneRender(s: State)
    requires s.play.PlayCopy? && s.play.i < |s.render|
    ensures var r := AfterRender(s);
            && r.play == PlayCopy(s.play.take, s.play.i + 1) && r.history == s.history && SameSettings(s, r)
            && r.overruns == s.overruns && r.underruns == s.underruns
  {
  }

  lemma LastRender(s: State)
    requires s.play.PlayCopy? && s.play.i == |s.render| == BLOCK_FRAMES
    requires RenderHolds(s.play, s.render, s.history.queue)
    ensures var r := AfterRender(AfterRender(s));
            && AfterRender(s).play.PlayUnderrun? && r.play == PlayRelease(s.play.take)
            && Done(s, if s.play.take != 0 then AfterRender(AfterRender(r)) else AfterRender(r))
  {
    var padded := Padded(s.history.queue[..s.play.take]);
    assert s.render[..BLOCK_FRAMES] == s.render && padded[..BLOCK_FRAMES] == padded;
  }

  /** The steps behind the copy loop: the counters, the mutex, and the semaphore if frames were taken. */
  lemma ReleaseTurn(s: State) returns (actions: seq<Action>)
    requires s.play.PlayUnderrun?
    ensures Allowed(s, actions) && Only(actions, PlayStep)
    ensures var r := AfterRender(s);
            && r.play.PlayRelease?
            && After(s, actions) == if s.play.take != 0 then AfterRender(AfterRender(r)) else AfterRender(r)
  {
    var r := AfterPlay(s);
    var rest := [];
    if s.play.take != 0 {
      rest := StepThen(AfterPlay(r), PlayStep, []);
    }
    rest := StepThen(r, PlayStep, rest);
    actions := StepThen(s, PlayStep, rest);
  }

  lemma {:induction false} RenderTurn(s: State) returns (actions: seq<Action>)
    requires Inv(s) && s.play.PlayCopy?
    ensures Allowed(s, actions) && Only(actions, PlayStep) && Done(s, After(s, actions))
    decreases BLOCK_FRAMES - s.play.i
  {
    if s.play.i < BLOCK_FRAMES {
      StepKeeps(s, PlayStep);
      OneRender(s);
      var rest := RenderTurn(AfterPlay(s));
      actions := StepThen(s, PlayStep, rest);
    } else {
      actions := LastTurn(s);
    }
  }

  lemma LastTurn(s: State) returns (actions: seq<Action>)
    requires Inv(s) && s.play.PlayCopy? && s.play.i == BLOCK_FRAMES
    ensures Allowed(s, actions) && Only(actions, PlayStep) && Done(s, After(s, actions))
  {
    LastRender(s);
    actions := ReleaseTurn(AfterPlay(s));
    actions := StepThen(s, PlayStep, actions);
  }

  lemma OneTake(s: State)
    requires s.play == PlayTake
    ensures var r := AfterRender(s);
            && r.play == PlayCopy(if s.paused then 0 else Min(s.ring.queued, BLOCK_FRAMES), 0)
            && r.history == s.history && SameSettings(s, r) && r.overruns == s.overruns && r.underruns == s.underruns
  {
  }

  /** The sequential render and the play thread's steps, from taking the mutex to the wake-up, do the same. */
  method FillRenderBlockIsSteps(q: Queue, ghost s: State) returns (take: nat, ghost actions: seq<Action>)
    requires q.Valid() && Inv(s) && Shows(q, s) && s.play == PlayTake
    modifies q.renderLeft, q.renderRight, q`read, q`queued, q`underruns, q`queue, q`space
    ensures q.Valid() && Allowed(s, actions) && Only(actions, PlayStep) && Shows(q, After(s, actions))
    ensures After(s, actions).play == PlaySuspend && q.Render() == After(s, actions).render
    ensures take == if s.paused then 0 else Min(|s.history.queue|, BLOCK_FRAMES)
  {
    OneTake(s);
    StepKeeps(s, PlayStep);
    ghost var rest := RenderTurn(AfterPlay(s));
    actions := StepThen(s, PlayStep, rest);
    take := q.FillRenderBlock();
  }
}
