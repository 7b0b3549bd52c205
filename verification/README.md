# Async-compute texture ping-pong

A Dafny model of the texture handoff in the async-compute sample. Two textures
circulate between the render thread and a background compute thread through two
mutex-protected FIFO queues of (texture, last-use tag) pairs:

- the compute thread pops a texture from the render-to-compute queue;
- it makes the compute hardware queue wait on the graphics queue when the tag is non-zero;
- it submits its work and pushes the texture to the compute-to-render queue, tagged with the new compute sequence number.

Each frame, the render thread does the opposite:

- it pops a freshly computed texture, if one is waiting;
- it retires the texture it was displaying to the compute side, tagged with the latest graphics sequence number;
- it makes the graphics queue wait for the compute work that produced the new texture;
- it submits its draw.

The model is a sequential state machine. Each step is one atomic action of one thread, and a scheduler picks the order of the steps:

- `texture_queue.dfy` (module `TextureQueue`): the queue as an immutable sequence. `Push` and `TryPop` are pure functions, and the FIFO behaviour is proved for any interleaving of calls.
- `async_compute.dfy` (module `AsyncCompute`): the global state, `Init`, the render step, the compute thread's actions and shutdown. The state holds:
  - both queues;
  - the displayed texture;
  - the compute thread's program counter, with its held texture;
  - the last graphics sequence number;
  - a sequence number for each hardware queue;
  - the 32-bit counter;
  - a log of the cross-queue waits and submissions;
  - the terminate flag.
- `protocol.dfy` (module `Protocol`): the invariants, which every step preserves and which therefore hold for every schedule. Textures are conserved, except the one texture the compute thread holds when it sees terminate, and no texture is in two places. Tags name work that has been issued. Each queue's submission numbers strictly increase. Every texture in transit carries a tag that covers all the other side's work with it, so each cross-queue wait orders every earlier use of the texture before the next one.

Texture handles are natural numbers, and the null handle is `None`. Executing a command list is modelled as returning the next number of that hardware queue's counter. Tag 0 means "never used".

## Model

| member | source | states |
|---|---|---|
| TextureQueue.Push | examples/async_compute/async_compute.cpp:47-51 | Push always succeeds. It appends exactly (texture, lastUse) at the back and leaves the entries already queued unchanged. The queue then owns one more copy of the texture. |
| TextureQueue.TryPop | examples/async_compute/async_compute.cpp:53-67 | It returns true iff the queue is non-empty. On an empty queue, the queue and both out-parameters are left unchanged. Otherwise it yields the front entry's texture and tag and removes exactly that entry. |
| TextureQueue.PushThenPopOnEmpty | examples/async_compute/async_compute.cpp:47-67 | `Push(r, 0)` on an empty queue followed by `TryPop` succeeds with (r, 0) and leaves the queue empty. |
| TextureQueue.ApplyIsFifo | examples/async_compute/async_compute.cpp:39-69 | Take any interleaving of pushes and pops. The entries delivered by the pops, followed by the entries still queued, equal the initial queue followed by the pushed entries, in order. Nothing is lost, duplicated or reordered. |
| TextureQueue.PushesPopInOrder | examples/async_compute/async_compute.cpp:39-69 | n pushes followed by n pops deliver the pushed entries in push order and leave the queue empty. |
| TextureQueue.TexturesAppend | examples/async_compute/async_compute.cpp:50 | Appending an entry adds exactly its texture to the textures the queue owns. |
| AsyncCompute.ExecuteCommandList | examples/async_compute/async_compute.cpp:246-289 | A submission's tag is non-zero and larger than any tag that queue issued before. That queue's counter then equals the tag, and the other queue's counter is unchanged. |
| AsyncCompute.Seed | examples/async_compute/async_compute.cpp:173-177 | The seeding loop queues n entries, and entry i is a texture distinct from the others, tagged 0. |
| AsyncCompute.Init | examples/async_compute/async_compute.cpp:111-181 | Init fails exactly when shader creation fails. On success:<br>- the render-to-compute queue holds NumTextures = 2 distinct textures, each tagged 0;<br>- the compute-to-render queue is empty;<br>- nothing is displayed;<br>- the last render use is 0;<br>- the compute thread is at its loop head. |
| AsyncCompute.RenderStep | examples/async_compute/async_compute.cpp:208-246 | If the pop fails, the queues and the displayed texture are unchanged and only the draw is logged, with no wait. If it succeeds:<br>- the popped texture is displayed;<br>- the previous one, if any, goes to render-to-compute with the last render use;<br>- a graphics-waits-on-compute wait for the popped tag is logged before the draw.<br>In every frame the last render use becomes the new graphics tag. |
| AsyncCompute.Poll | examples/async_compute/async_compute.cpp:261-267 | If terminate is set, the thread leaves its loop. On an empty queue nothing changes. Otherwise the front texture and its tag move from the render-to-compute queue into the thread's hands, and nothing else changes. |
| AsyncCompute.Finish | examples/async_compute/async_compute.cpp:266-293 | If terminate is set, the thread leaves its loop and nothing else changes. Otherwise:<br>- exactly one compute submission is issued;<br>- the held texture is appended to compute-to-render with that tag;<br>- the counter advances by 1 modulo 2^32, wrapping to 0;<br>- the log gains exactly the iteration's events (`ComputeEvents`);<br>- the loop restarts, and nothing else changes. |
| AsyncCompute.LoopHead | examples/async_compute/async_compute.cpp:256-262 | Each iteration starts by reading terminate. If it is set, the thread leaves the loop. Otherwise it enters the polling loop. Nothing else changes. |
| AsyncCompute.ComputeEvents | examples/async_compute/async_compute.cpp:287-289 | An iteration records a compute-waits-on-graphics wait for the held tag exactly when that tag is non-zero. It then records exactly one compute submission, which binds the held texture. |
| AsyncCompute.ComputeStep | examples/async_compute/async_compute.cpp:256-295 | Once terminate is set, the next compute action exits the loop without logging, submitting or pushing anything. The exited thread stays put, and compute actions never touch the render thread's state. |
| AsyncCompute.Shutdown | examples/async_compute/async_compute.cpp:105-107 | The destructor sets the terminate flag and changes nothing else. |
| AsyncCompute.ThreadStarted | examples/async_compute/async_compute.cpp:179 | The compute thread has been started exactly when Init succeeded. |
| AsyncCompute.DestroyAsWritten | examples/async_compute/async_compute.cpp:105-109 | The destructor as written joins when the compute thread was started. It fails exactly when the thread was never started. |
| AsyncCompute.FailedInitBreaksTeardown | examples/async_compute/async_compute.cpp:105-109 | After Init fails, the destructor as written tries to join a thread that was never started. |
| AsyncCompute.Destroy | examples/async_compute/async_compute.cpp:105-109 | The guarded destructor never fails. It joins exactly when the thread was started. |
| AsyncCompute.TeardownAfterAnyInit | examples/async_compute/async_compute.cpp:105-109 | With the guarded destructor, teardown succeeds after a successful or a failed Init, and it joins iff Init succeeded. |
| Protocol.SeedTextures | examples/async_compute/async_compute.cpp:173-177 | The seeded queue owns each of the textures 0 .. n-1 exactly once and nothing else. |
| Protocol.PoolIsDistinct | examples/async_compute/async_compute.cpp:173-177 | The pool consists of NumTextures distinct textures. |
| Protocol.CensusRender | examples/async_compute/async_compute.cpp:210-216 | A render step moves textures between the display slot and the queues without creating or dropping any. |
| Protocol.CensusCompute | examples/async_compute/async_compute.cpp:261-291 | A compute action conserves the textures, with one exception: a terminate observed while a texture is held drops exactly that texture. |
| Protocol.LossOnlyOnTerminate | examples/async_compute/async_compute.cpp:266-267 | A step loses a texture iff it is the compute thread's terminate check while holding one. No step loses more than one. |
| Protocol.InitEstablishesInv | examples/async_compute/async_compute.cpp:173-177 | After a successful Init the whole pool is accounted for, and the tag and log invariants hold. |
| Protocol.RenderPreservesInv | examples/async_compute/async_compute.cpp:208-246 | A render step preserves pool conservation, the tag invariants, the log invariants and coverage. |
| Protocol.ComputePreservesInv | examples/async_compute/async_compute.cpp:256-293 | A compute action preserves pool conservation, the tag invariants, the log invariants and coverage. |
| Protocol.RunPreservesInv | examples/async_compute/async_compute.cpp:208-293 | Any schedule of render, compute and shutdown steps preserves the invariants. |
| Protocol.PoolConserved | examples/async_compute/async_compute.cpp:173-291 | On every schedule after a successful Init:<br>- no texture is in two places;<br>- only pool textures circulate;<br>- all NumTextures are accounted for while the compute thread runs;<br>- at most one is missing after it exits. |
| Protocol.TagsSoundOnEverySchedule | examples/async_compute/async_compute.cpp:218-289 | On every schedule, each hardware queue's submissions carry strictly increasing numbers. Every recorded wait names a number its queue has already issued. |
| Protocol.RenderWaitNamesIssuedComputeWork | examples/async_compute/async_compute.cpp:210-218 | The render side's wait tag is non-zero and already issued on the compute queue. The wait is logged ahead of the draw that samples the new texture, with no graphics-queue event in between. |
| Protocol.RetiredTagCoversEveryDraw | examples/async_compute/async_compute.cpp:212-215 | The retired texture's tag is at least every graphics submission recorded so far. That no later draw samples it while it is away is stated by RenderPreservesCovered and ComputeWaitCoversEveryDraw. |
| Protocol.ComputeWaitIffTagPositive | examples/async_compute/async_compute.cpp:287-291 | A non-terminating iteration leaves the earlier log unchanged. It logs a compute-waits-on-graphics wait iff the held tag is > 0, with that tag, and logs it before its one submission. The texture then goes to compute-to-render with the new compute tag. |
| Protocol.RenderPreservesCovered | examples/async_compute/async_compute.cpp:210-246 | A render step keeps every texture in transit covered. A retired texture is appended with the last render use, which is at least every earlier graphics submission. The draw the step adds binds only the displayed texture, which is not in the render-to-compute queue and not in the compute thread's hands. |
| Protocol.FinishPreservesCovered | examples/async_compute/async_compute.cpp:287-291 | A compute iteration keeps every texture in transit covered. The texture it pushes is tagged with the number of its own dispatch, which is above every earlier compute submission. The dispatch binds only the held texture, which is not queued towards the render side. |
| Protocol.ComputeWaitCoversEveryDraw | examples/async_compute/async_compute.cpp:287-289 | Every draw recorded so far that sampled the held texture has a number in 1 .. lastUse. The iteration's first event is then the compute queue's wait for lastUse, ahead of the dispatch that writes the texture. A zero tag means no draw ever sampled it. |
| Protocol.RenderWaitCoversEveryDispatch | examples/async_compute/async_compute.cpp:210-218 | Every dispatch recorded so far that wrote the texture about to be displayed has a number at most its tag. The step's first event is the graphics queue's wait for that tag, and the draw that samples the texture follows it. |
| Protocol.WaitsCoverOnEverySchedule | examples/async_compute/async_compute.cpp:208-293 | On every schedule after a successful Init, each queued or held texture carries a tag covering all the other side's work with it. Every submission is numbered from 1. |
| Protocol.TerminatedComputeSubmitsNothing | examples/async_compute/async_compute.cpp:263-267 | With terminate set, the compute thread exits in one action without submitting or pushing, and then stays exited. |
| Protocol.DisplayNeverBlank | examples/async_compute/async_compute.cpp:210-212 | Once a texture is displayed, every later state, under any schedule, still displays one. |

## Left out

- Shader, sampler, binding-layout, pipeline and command-list creation in Init (lines 113-163) are calls into the graphics library. Init's failure is modelled only as the boolean `shadersCreated`. A texture creation that returns null is not modelled: texture handles are the ids 0 .. NumTextures-1.
- Command-list recording is not modelled. This covers the clear, the draw, the dispatch, the push constants, the binding caches and the lazy creation of the graphics pipeline in Render. A submission is kept only as a logged event on a hardware queue with its tag and the texture it binds.
- Real GPU fence semantics and `runGarbageCollection` are not modelled. Each hardware queue is a counter, and the deferred cleanup is a step with no effect.
- AsyncCompute.ExecuteCommandList: tags are unbounded naturals, not 64-bit values. A 64-bit counter incremented once per submission cannot realistically wrap. The model also assumes that only this pass submits to the two queues, starting from 0.
- The mutex, the thread and the atomic flag are modelled as atomic interleaved steps plus a terminate flag. The busy-wait is modelled as repeated `Poll` actions.
- RenderStep: Render is modelled as one atomic step, although its pop and its push take the queue lock separately. In between, the retired texture is held by a local variable of Render. The compute thread can observe only the render-to-compute queue without that texture, which is the state just before the push. The compute thread's wait and submission (lines 288-289) can also fall between Render's wait (line 218) and its submission (line 246). Those are compute-queue events, so no graphics-queue event comes between the wait and the draw in either order.
- Finish: the rest of a compute iteration (lines 266-293) is modelled as one atomic step. In the program, render steps can run between the compute wait (line 288) and the compute submission (line 289), and between that submission and the push (line 291). Those add only graphics-queue events, so no compute-queue event comes between the wait and the dispatch. The texture is pushed only after its dispatch was issued.
- TextureQueue.TryPop: both call sites pass a null handle, so the caller's previous handle, which the source destroys with the popped node, is always null and is not tracked.
- Wall-clock pacing with `steady_clock` and `sleep_until` is timing, not state.
- `BackBufferResizing`, `Animate`, the window title and `main` are UI, device bootstrap and I/O. They are not modelled, except for the destructor's teardown.

## Findings

| source | as written | input that shows it | evidently intended | confidence | as-written member | corrected member |
|---|---|---|---|---|---|---|
| examples/async_compute/async_compute.cpp:105-109 | The destructor sets terminate and calls `m_ComputeThread.join()` unconditionally. | Init returns false at line 124 because a shader could not be created, so line 179 never starts the thread. The object then goes out of scope in `main` (lines 323-330). Joining a thread that was never started throws, and an exception leaving a destructor ends the process. | Join only if the thread was started (is joinable). | high; not executed | AsyncCompute.FailedInitBreaksTeardown | AsyncCompute.Destroy |
