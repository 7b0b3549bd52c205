/**
 The texture ping-pong between the render thread and the background compute
 thread of the async-compute sample, as a sequential state machine whose steps
 interleave: each step is one atomic action of one thread.

 Hardware queues are reduced to submission counters: executing a command list on
 a queue returns that queue's next sequence number, and waiting on another queue
 is recorded in an event log alongside every submission.
 */
module AsyncCompute {
  import opened TextureQueue

  /** The two hardware queues the sample submits to. */
  datatype CommandQueue = Graphics | Compute

  /** The last sequence number issued on each hardware queue (0: nothing issued yet). */
  datatype Fences = Fences(graphics: Tag, compute: Tag)

  function Issued(f: Fences, q: CommandQueue): Tag
  {
    match q
    case Graphics => f.graphics
    case Compute => f.compute
  }

  /**
   Executing a command list on queue `q` returns a fresh sequence number for that
   queue, one past everything it issued before; the other queue is untouched.
   */
  function ExecuteCommandList(f: Fences, q: CommandQueue): (r: (Fences, Tag))
    ensures r.1 > Issued(f, q) && r.1 > 0
    ensures Issued(r.0, q) == r.1
    ensures forall other: CommandQueue :: other != q ==> Issued(r.0, other) == Issued(f, other)
  {
    match q
    case Graphics => (f.(graphics := f.graphics + 1), f.graphics + 1)
    case Compute => (f.(compute := f.compute + 1), f.compute + 1)
  }

  /**
   What the device is asked to do: make `waiter`'s next submission wait until
   `signaller` has completed sequence number `tag`, or run a command list on
   `queue` (with the texture it binds, if any) that was issued sequence number `tag`.
   */
  datatype Event =
    | QueueWait(waiter: CommandQueue, signaller: CommandQueue, tag: Tag)
    | Submission(queue: CommandQueue, tag: Tag, uses: Option<Tex>)

  /** The compute thread's 32-bit push-constant counter. */
  const U32: nat := 0x1_0000_0000
  type uint32 = x: int | 0 <= x < U32

  /**
   Where the compute thread is in its loop. `Top` is the loop head (terminate
   check), `Spin` the pop-retry loop, `Acquired` holds the popped texture and its
   last-use tag before the second terminate check, `Exited` is after the loop.
   */
  datatype Phase = Top | Spin | Acquired(tex: Tex, lastUse: Tag) | Exited

  /** The number of textures created at startup. */
  const NumTextures: nat := 2

  datatype State = State(
    renderToCompute: Queue,
    computeToRender: Queue,
    current: Option<Tex>,  // the texture on display, null until the first arrives
    lastRenderUse: Tag,    // sequence number of the latest graphics submission
    phase: Phase,
    counter: uint32,
    fences: Fences,
    log: seq<Event>,
    terminate: bool)

  /** The compute thread's texture slot: the popped texture while it is being used. */
  function ComputeHeld(s: State): Option<Tex>
  {
    if s.phase.Acquired? then Some(s.phase.tex) else None
  }

  /** Every texture owned by a queue, the display slot or the compute thread. */
  function Census(s: State): multiset<Tex>
  {
    Textures(s.renderToCompute) + Textures(s.computeToRender) + Held(s.current) + Held(ComputeHeld(s))
  }

  /** The seeding loop: `n` freshly created textures, handles 0 .. n-1, each tagged 0. */
  function Seed(n: nat): (q: Queue)
    ensures |q| == n
    ensures forall i :: 0 <= i < n ==> q[i] == Entry(i, 0)
  {
    if n == 0 then [] else Push(Seed(n - 1), n - 1, 0)
  }

  /** The pool of textures the sample circulates. */
  function Pool(): multiset<Tex>
  {
    Textures(Seed(NumTextures))
  }

  /**
   Init: fails (returns false) when a shader could not be created; otherwise seeds
   the render-to-compute queue with the textures, each tagged 0, and starts the
   compute thread at its loop head.
   */
  function Init(shadersCreated: bool): (r: Option<State>)
    ensures r.Some? <==> shadersCreated
    ensures r.Some? ==>
      && |r.value.renderToCompute| == NumTextures
      && (forall i :: 0 <= i < NumTextures ==> r.value.renderToCompute[i].lastUse == 0)
      && (forall i, j :: 0 <= i < j < NumTextures ==>
            r.value.renderToCompute[i].tex != r.value.renderToCompute[j].tex)
      && r.value.computeToRender == []
      && r.value.current == None
      && r.value.lastRenderUse == 0
      && r.value.phase == Top
      && !r.value.terminate
  {
    if !shadersCreated then None
    else Some(State(Seed(NumTextures), [], None, 0, Top, 0, Fences(0, 0), [], false))
  }

  /**
   One frame's handoff and submission on the render thread. If a computed
   texture is waiting it replaces the displayed one, the previously displayed
   texture (if any) is retired to the compute side tagged with the latest
   graphics sequence number, and the graphics queue is made to wait for the
   compute work that produced the new texture. Every frame then submits the draw
   and remembers its sequence number.
   */
  function RenderStep(s: State): (r: State)
    ensures |s.computeToRender| == 0 ==>
      && r.computeToRender == s.computeToRender
      && r.renderToCompute == s.renderToCompute
      && r.current == s.current
      && r.log == s.log + [Submission(Graphics, r.lastRenderUse, s.current)]
    ensures |s.computeToRender| > 0 ==>
      && r.current == Some(s.computeToRender[0].tex)
      && r.computeToRender == s.computeToRender[1..]
      && r.renderToCompute == (if s.current.Some?
                               then s.renderToCompute + [Entry(s.current.value, s.lastRenderUse)]
                               else s.renderToCompute)
      && r.log == s.log + [QueueWait(Graphics, Compute, s.computeToRender[0].lastUse),
                           Submission(Graphics, r.lastRenderUse, r.current)]
    ensures r.lastRenderUse == r.fences.graphics == s.fences.graphics + 1
    ensures r.fences.compute == s.fences.compute
    ensures r.phase == s.phase && r.counter == s.counter && r.terminate == s.terminate
  {
    var p := TryPop(s.computeToRender, None, 0);
    var s1 :=
      if p.ok then
        var retired := s.current;
        s.(computeToRender := p.rest,
           current := p.tex,
           renderToCompute := if retired.Some? then Push(s.renderToCompute, retired.value, s.lastRenderUse)
                              else s.renderToCompute,
           log := s.log + [QueueWait(Graphics, Compute, p.lastUse)])
      else s;
    var (fences, tag) := ExecuteCommandList(s1.fences, Graphics);
    s1.(fences := fences, lastRenderUse := tag, log := s1.log + [Submission(Graphics, tag, s1.current)])
  }

  /**
   The events a compute iteration records: a compute-waits-on-graphics wait for
   `lastUse` exactly when it is non-zero, then the one submission binding `tex`.
   */
  function ComputeEvents(tex: Tex, lastUse: Tag, tag: Tag): (r: seq<Event>)
    ensures |r| == if lastUse > 0 then 2 else 1
    ensures r[|r| - 1] == Submission(Compute, tag, Some(tex))
    ensures forall i :: 0 <= i < |r| - 1 ==> r[i] == QueueWait(Compute, Graphics, lastUse)
  {
    (if lastUse > 0 then [QueueWait(Compute, Graphics, lastUse)] else [])
      + [Submission(Compute, tag, Some(tex))]
  }

  /**
   The loop head: leave once terminate is set; otherwise (after the deferred
   cleanup, which has no effect here) start polling with a null handle and tag 0.
   */
  function LoopHead(s: State): (r: State)
    ensures s.terminate ==> r == s.(phase := Exited)
    ensures !s.terminate ==> r == s.(phase := Spin)
  {
    if s.terminate then s.(phase := Exited) else s.(phase := Spin)
  }

  /**
   One turn of the spin: leave once terminate is set (the check after the spin
   sees the same flag); otherwise try once to pop the render-to-compute queue.
   */
  function Poll(s: State): (r: State)
    ensures s.terminate ==> r == s.(phase := Exited)
    ensures !s.terminate && |s.renderToCompute| == 0 ==> r == s
    ensures !s.terminate && |s.renderToCompute| > 0 ==>
      && r.renderToCompute == s.renderToCompute[1..]
      && r.phase == Acquired(s.renderToCompute[0].tex, s.renderToCompute[0].lastUse)
      && r.(renderToCompute := s.renderToCompute, phase := s.phase) == s
  {
    if s.terminate then s.(phase := Exited)
    else
      var p := TryPop(s.renderToCompute, None, 0);
      if p.ok then s.(renderToCompute := p.rest, phase := Acquired(p.tex.value, p.lastUse))
      else s
  }

  /**
   The rest of an iteration with `tex` acquired, last used at `lastUse`. If
   terminate is now set the thread leaves and the texture is dropped. Otherwise
   the compute queue waits on the graphics queue when `lastUse` is non-zero, the
   work is submitted, the texture is handed to the render side tagged with the
   new compute sequence number and the 32-bit counter advances.
   */
  function Finish(s: State, tex: Tex, lastUse: Tag): (r: State)
    ensures s.terminate ==> r == s.(phase := Exited)
    ensures !s.terminate ==>
      && r.phase == Top
      && r.fences == s.fences.(compute := s.fences.compute + 1)
      && r.computeToRender == s.computeToRender + [Entry(tex, r.fences.compute)]
      && r.log == s.log + ComputeEvents(tex, lastUse, r.fences.compute)
      && r.counter == (if s.counter == U32 - 1 then 0 else s.counter + 1)
      && r.(log := s.log, fences := s.fences, computeToRender := s.computeToRender,
            counter := s.counter, phase := s.phase) == s
  {
    if s.terminate then s.(phase := Exited)
    else
      var (fences, tag) := ExecuteCommandList(s.fences, Compute);
      s.(log := s.log + ComputeEvents(tex, lastUse, tag),
         fences := fences,
         computeToRender := Push(s.computeToRender, tex, tag),
         counter := (s.counter + 1) % U32,
         phase := Top)
  }

  /** One atomic action of the compute thread, chosen by where it is in its loop. */
  function ComputeStep(s: State): (r: State)
    ensures s.terminate ==> r.phase == Exited
    ensures s.terminate ==>
      r.log == s.log && r.fences == s.fences && r.computeToRender == s.computeToRender
      && r.renderToCompute == s.renderToCompute
    ensures r.current == s.current && r.lastRenderUse == s.lastRenderUse && r.terminate == s.terminate
    ensures s.phase == Exited ==> r == s
  {
    match s.phase
    case Top => LoopHead(s)
    case Spin => Poll(s)
    case Acquired(tex, lastUse) => Finish(s, tex, lastUse)
    case Exited => s
  }

  /** The destructor's request that the compute thread stop. */
  function Shutdown(s: State): (r: State)
    ensures r.terminate
    ensures r.(terminate := s.terminate) == s
  {
    s.(terminate := true)
  }

  /**
   How tearing the sample down ends: the compute thread is joined, there was no
   thread to join, or the join itself fails (joining a thread that was never
   started throws, and an exception leaving a destructor ends the process).
   */
  datatype Teardown = Joined | NothingToJoin | JoinFailed

  /** Whether Init started the compute thread: only a successful Init gets that far. */
  function ThreadStarted(shadersCreated: bool): (started: bool)
    ensures started <==> Init(shadersCreated).Some?
  {
    shadersCreated
  }

  /** The destructor as written: it sets terminate and joins unconditionally. */
  function DestroyAsWritten(threadStarted: bool): (r: Teardown)
    ensures r == JoinFailed <==> !threadStarted
    ensures r == Joined <==> threadStarted
  {
    if threadStarted then Joined else JoinFailed
  }

  /** A destructor that joins only a thread that was started. */
  function Destroy(threadStarted: bool): (r: Teardown)
    ensures r != JoinFailed
    ensures r == Joined <==> threadStarted
  {
    if threadStarted then Joined else NothingToJoin
  }

  /** A failed Init followed by the destructor as written ends in a failed join. */
  lemma FailedInitBreaksTeardown()
    ensures Init(false) == None
    ensures DestroyAsWritten(ThreadStarted(false)) == JoinFailed
  {
  }

  /** With the guarded destructor, teardown succeeds whether or not Init did. */
  lemma TeardownAfterAnyInit(shadersCreated: bool)
    ensures Destroy(ThreadStarted(shadersCreated)) != JoinFailed
    ensures Destroy(ThreadStarted(shadersCreated)) == Joined <==> Init(shadersCreated).Some?
  {
  }

  /** Which thread acts next. */
  datatype Action = Render | ComputeAction | RequestShutdown

  function Next(s: State, a: Action): State
  {
    match a
    case Render => RenderStep(s)
    case ComputeAction => ComputeStep(s)
    case RequestShutdown => Shutdown(s)
  }

  /** The state after the scheduler runs `actions` in order. */
  function Run(s: State, actions: seq<Action>): State
    decreases |actions|
  {
    if |actions| == 0 then s else Run(Next(s, actions[0]), actions[1..])
  }
}
