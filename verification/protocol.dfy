/**
 Invariants of the texture ping-pong: the pool of textures is conserved, except
 the one texture the compute thread holds when it sees terminate, and no
 texture is in two places, every tag carried by a queue was issued by the queue
 it names, waits always name issued work, and each queue's sequence numbers
 strictly increase. Each step preserves them, so every schedule does.
 */
module Protocol {
  import opened TextureQueue
  import opened AsyncCompute

  /** Every tag in `q` is at most `bound`. */
  predicate TagsAtMost(q: Queue, bound: Tag)
  {
    forall i :: 0 <= i < |q| ==> q[i].lastUse <= bound
  }

  /** Every tag in `q` names real work (is non-zero). */
  predicate TagsPositive(q: Queue)
  {
    forall i :: 0 <= i < |q| ==> q[i].lastUse > 0
  }

  /** The hardware queue whose sequence number an event's tag refers to. */
  function Counted(e: Event): CommandQueue
  {
    match e
    case QueueWait(_, signaller, _) => signaller
    case Submission(queue, _, _) => queue
  }

  /** No event refers to a sequence number its queue has not yet issued. */
  predicate LogIssued(log: seq<Event>, f: Fences)
  {
    forall i :: 0 <= i < |log| ==> log[i].tag <= Issued(f, Counted(log[i]))
  }

  /** Successive submissions on one hardware queue carry strictly increasing numbers. */
  predicate SubmissionsIncrease(log: seq<Event>)
  {
    forall i, j ::
      (0 <= i < j < |log| && log[i].Submission? && log[j].Submission? && log[i].queue == log[j].queue)
      ==> log[i].tag < log[j].tag
  }

  /** Each texture is in at most one place. */
  predicate NoDuplicates(m: multiset<Tex>)
  {
    forall t | t in m :: m[t] <= 1
  }

  /** Every texture is accounted for: all of the pool while the compute thread runs, at most one short after. */
  predicate PoolOk(s: State)
  {
    && Census(s) <= Pool()
    && (!s.phase.Exited? ==> Census(s) == Pool())
    && |Census(s)| + 1 >= NumTextures
  }

  /**
   Each queue's tags name work of the queue that last used its textures: graphics
   numbers towards the compute side, non-zero compute numbers towards the render
   side, and the retirement tag is always the latest graphics number.
   */
  predicate TagsOk(s: State)
  {
    && s.lastRenderUse == s.fences.graphics
    && TagsAtMost(s.renderToCompute, s.fences.graphics)
    && TagsPositive(s.computeToRender)
    && TagsAtMost(s.computeToRender, s.fences.compute)
    && (s.phase.Acquired? ==> s.phase.lastUse <= s.fences.graphics)
  }

  /** Every submission is issued a real (non-zero) sequence number. */
  predicate SubmissionsPositive(log: seq<Event>)
  {
    forall i :: 0 <= i < |log| && log[i].Submission? ==> log[i].tag > 0
  }

  predicate LogOk(s: State)
  {
    LogIssued(s.log, s.fences) && SubmissionsIncrease(s.log) && SubmissionsPositive(s.log)
  }

  /** No submission on `queue` in `log` that binds `tex` was issued a number above `bound`. */
  predicate UsesAtMost(log: seq<Event>, queue: CommandQueue, tex: Tex, bound: Tag)
  {
    forall i :: 0 <= i < |log| && log[i].Submission? && log[i].queue == queue && log[i].uses == Some(tex)
      ==> log[i].tag <= bound
  }

  /**
   Every texture in transit carries a tag covering all the work the other side
   did with it: towards the compute side (and in the compute thread's hands)
   every draw that sampled it, towards the render side every dispatch that
   wrote it.
   */
  predicate Covered(s: State)
  {
    && (forall i :: 0 <= i < |s.renderToCompute| ==>
          UsesAtMost(s.log, Graphics, s.renderToCompute[i].tex, s.renderToCompute[i].lastUse))
    && (s.phase.Acquired? ==> UsesAtMost(s.log, Graphics, s.phase.tex, s.phase.lastUse))
    && (forall i :: 0 <= i < |s.computeToRender| ==>
          UsesAtMost(s.log, Compute, s.computeToRender[i].tex, s.computeToRender[i].lastUse))
  }

  predicate Inv(s: State)
  {
    PoolOk(s) && TagsOk(s) && LogOk(s) && Covered(s)
  }

  // ---------------------------------------------------------------------------
  // The pool

  lemma {:induction false} SeedTextures(n: nat)
    ensures forall t: Tex :: Textures(Seed(n))[t] == if t < n then 1 else 0
  {
    if n == 0 {
      assert Seed(n) == [];
      assert Textures(Seed(n)) == multiset{};
    } else {
      SeedTextures(n - 1);
      var prev := Textures(Seed(n - 1));
      var m := Textures(Seed(n));
      assert m == prev + multiset{n - 1};
      forall t: Tex
        ensures m[t] == if t < n then 1 else 0
      {
        if t == n - 1 {
          assert prev[t] == 0;
        } else {
          assert multiset{n - 1}[t] == 0;
        }
      }
    }
  }

  /** The pool holds exactly the textures 0 .. NumTextures-1, once each. */
  lemma PoolIsDistinct()
    ensures NoDuplicates(Pool())
    ensures forall t: Tex :: t in Pool() <==> t < NumTextures
    ensures |Pool()| == NumTextures
  {
  }

  /** Anything inside the pool has no duplicates and only pool textures. */
  lemma WithinPool(m: multiset<Tex>)
    requires m <= Pool()
    ensures NoDuplicates(m)
    ensures forall t :: t in m ==> t < NumTextures
  {
  }

  lemma {:induction false} TexturesHas(q: Queue, i: nat)
    requires i < |q|
    ensures q[i].tex in Textures(q)
    decreases i
  {
    if i > 0 {
      TexturesHas(q[1..], i - 1);
    }
  }

  /**
   Within the pool the places are disjoint: the displayed texture is in no queue
   and not in the compute thread's hands, and the held texture is not queued
   towards the render side.
   */
  lemma Apart(s: State)
    requires PoolOk(s)
    ensures s.current.Some? ==>
      forall i :: 0 <= i < |s.renderToCompute| ==> s.renderToCompute[i].tex != s.current.value
    ensures s.current.Some? && s.phase.Acquired? ==> s.phase.tex != s.current.value
    ensures s.phase.Acquired? ==>
      forall i :: 0 <= i < |s.computeToRender| ==> s.computeToRender[i].tex != s.phase.tex
  {
    var c := Census(s);
    WithinPool(c);
    forall i | 0 <= i < |s.renderToCompute|
      ensures c[s.renderToCompute[i].tex] >= Textures(s.renderToCompute)[s.renderToCompute[i].tex] + Held(s.current)[s.renderToCompute[i].tex]
      ensures s.renderToCompute[i].tex in Textures(s.renderToCompute)
    {
      TexturesHas(s.renderToCompute, i);
    }
    forall i | 0 <= i < |s.computeToRender|
      ensures c[s.computeToRender[i].tex] >= Textures(s.computeToRender)[s.computeToRender[i].tex] + Held(ComputeHeld(s))[s.computeToRender[i].tex]
      ensures s.computeToRender[i].tex in Textures(s.computeToRender)
    {
      TexturesHas(s.computeToRender, i);
    }
    if s.phase.Acquired? {
      assert c[s.phase.tex] >= Held(s.current)[s.phase.tex] + Held(ComputeHeld(s))[s.phase.tex];
    }
  }

  lemma IssuedBoundsUses(log: seq<Event>, f: Fences, queue: CommandQueue, tex: Tex)
    requires LogIssued(log, f)
    ensures UsesAtMost(log, queue, tex, Issued(f, queue))
  {
    forall i | 0 <= i < |log| && log[i].Submission? && log[i].queue == queue && log[i].uses == Some(tex)
      ensures log[i].tag <= Issued(f, queue)
    {
      assert Counted(log[i]) == queue;
    }
  }

  lemma IssuedBoundsAll(log: seq<Event>, f: Fences, queue: CommandQueue)
    requires LogIssued(log, f)
    ensures forall i :: (0 <= i < |log| && log[i].Submission? && log[i].queue == queue) ==>
      log[i].tag <= Issued(f, queue)
  {
    forall i | 0 <= i < |log| && log[i].Submission? && log[i].queue == queue
      ensures log[i].tag <= Issued(f, queue)
    {
      assert Counted(log[i]) == queue;
    }
  }

  lemma UsesAtMostAppend(log: seq<Event>, extra: seq<Event>, queue: CommandQueue, tex: Tex, bound: Tag)
    requires UsesAtMost(log, queue, tex, bound) && UsesAtMost(extra, queue, tex, bound)
    ensures UsesAtMost(log + extra, queue, tex, bound)
  {
    forall i | 0 <= i < |log + extra|
      ensures (log + extra)[i] == if i < |log| then log[i] else extra[i - |log|]
    {
    }
  }

  // ---------------------------------------------------------------------------
  // Ownership moves

  /** A render step moves textures between places but never creates or drops one. */
  lemma CensusRender(s: State)
    ensures Census(RenderStep(s)) == Census(s)
  {
  }

  lemma CensusPoll(s: State)
    requires s.phase == Spin
    ensures Census(Poll(s)) == Census(s)
  {
  }

  lemma CensusFinish(s: State, tex: Tex, lastUse: Tag)
    requires s.phase == Acquired(tex, lastUse)
    ensures s.terminate ==> Census(Finish(s, tex, lastUse)) + multiset{tex} == Census(s)
    ensures !s.terminate ==> Census(Finish(s, tex, lastUse)) == Census(s)
  {
  }

  /**
   A compute action conserves the textures, except that a terminate observed
   with a texture acquired drops that one texture.
   */
  lemma CensusCompute(s: State)
    ensures s.phase.Acquired? && s.terminate ==>
      Census(ComputeStep(s)) + multiset{s.phase.tex} == Census(s)
    ensures !(s.phase.Acquired? && s.terminate) ==> Census(ComputeStep(s)) == Census(s)
  {
    match s.phase
    case Top =>
    case Spin => CensusPoll(s);
    case Acquired(tex, lastUse) => CensusFinish(s, tex, lastUse);
    case Exited =>
  }

  /** The only action that shrinks the census is the drop on termination. */
  lemma LossOnlyOnTerminate(s: State, a: Action)
    ensures |Census(Next(s, a))| < |Census(s)| <==> a == ComputeAction && s.phase.Acquired? && s.terminate
    ensures |Census(Next(s, a))| + 1 >= |Census(s)|
  {
    match a
    case Render => CensusRender(s);
    case ComputeAction => CensusCompute(s);
    case RequestShutdown => assert Census(Shutdown(s)) == Census(s);
  }

  // ---------------------------------------------------------------------------
  // Preservation

  lemma InitEstablishesInv()
    ensures Init(true).Some? && Inv(Init(true).value)
    ensures Census(Init(true).value) == Pool()
  {
  }

  lemma RenderPreservesLog(s: State)
    requires TagsOk(s) && LogOk(s)
    ensures LogIssued(RenderStep(s).log, RenderStep(s).fences)
    ensures SubmissionsIncrease(RenderStep(s).log)
    ensures SubmissionsPositive(RenderStep(s).log)
  {
    var r := RenderStep(s);
    var n := |s.log|;
    assert forall i :: 0 <= i < n ==> r.log[i] == s.log[i];
    forall i | 0 <= i < |r.log|
      ensures r.log[i].tag <= Issued(r.fences, Counted(r.log[i]))
    {
      if i < n {
        assert Issued(r.fences, Counted(s.log[i])) >= Issued(s.fences, Counted(s.log[i]));
      } else if |s.computeToRender| > 0 && i == n {
        assert s.computeToRender[0].lastUse <= s.fences.compute;
      }
    }
    forall i, j | 0 <= i < j < |r.log| && r.log[i].Submission? && r.log[j].Submission?
      && r.log[i].queue == r.log[j].queue
      ensures r.log[i].tag < r.log[j].tag
    {
      if j >= n {
        assert r.log[j] == Submission(Graphics, r.fences.graphics, r.current);
        if i < n {
          assert r.log[i].tag <= s.fences.graphics;
        }
      }
    }
  }

  lemma RenderPreservesTags(s: State)
    requires TagsOk(s)
    ensures TagsOk(RenderStep(s))
  {
  }

  lemma RenderPreservesInv(s: State)
    requires Inv(s)
    ensures Inv(RenderStep(s))
  {
    CensusRender(s);
    assert PoolOk(RenderStep(s));
    RenderPreservesTags(s);
    RenderPreservesLog(s);
    RenderPreservesCovered(s);
  }

  lemma FinishPreservesLog(s: State, tex: Tex, lastUse: Tag)
    requires Inv(s) && s.phase == Acquired(tex, lastUse) && !s.terminate
    ensures LogIssued(Finish(s, tex, lastUse).log, Finish(s, tex, lastUse).fences)
    ensures SubmissionsIncrease(Finish(s, tex, lastUse).log)
  {
  }

  lemma PollPreservesParts(s: State)
    requires PoolOk(s) && TagsOk(s) && LogOk(s) && s.phase == Spin
    ensures PoolOk(Poll(s)) && TagsOk(Poll(s)) && LogOk(Poll(s))
  {
  }

  lemma PollPreservesInv(s: State)
    requires Inv(s) && s.phase == Spin
    ensures Inv(Poll(s))
  {
    PollPreservesParts(s);
    PollPreservesCovered(s);
  }

  lemma FinishPreservesTags(s: State, tex: Tex, lastUse: Tag)
    requires TagsOk(s) && s.phase == Acquired(tex, lastUse)
    ensures TagsOk(Finish(s, tex, lastUse))
  {
  }

  lemma FinishPreservesPool(s: State, tex: Tex, lastUse: Tag)
    requires PoolOk(s) && s.phase == Acquired(tex, lastUse)
    ensures PoolOk(Finish(s, tex, lastUse))
  {
  }

  lemma FinishPreservesInv(s: State, tex: Tex, lastUse: Tag)
    requires Inv(s) && s.phase == Acquired(tex, lastUse)
    ensures Inv(Finish(s, tex, lastUse))
  {
    FinishPreservesPool(s, tex, lastUse);
    FinishPreservesTags(s, tex, lastUse);
    if !s.terminate {
      FinishPreservesLog(s, tex, lastUse);
    }
    FinishPreservesCovered(s, tex, lastUse);
  }

  /** What a render step adds to the log: the optional wait and one draw binding the displayed texture. */
  lemma RenderExtra(s: State)
    ensures RenderStep(s).log == s.log + RenderStep(s).log[|s.log|..]
    ensures forall k :: |s.log| <= k < |RenderStep(s).log| ==>
      RenderStep(s).log[k].QueueWait? || RenderStep(s).log[k] == Submission(Graphics, RenderStep(s).fences.graphics, RenderStep(s).current)
  {
  }

  /** New draws never bind a texture that is not on display. */
  lemma RenderExtraSparing(s: State, tex: Tex, queue: CommandQueue, bound: Tag)
    requires RenderStep(s).current != Some(tex)
    ensures UsesAtMost(RenderStep(s).log[|s.log|..], queue, tex, bound)
  {
    RenderExtra(s);
  }

  lemma RenderCoversEntry(s: State, i: nat)
    requires PoolOk(s) && LogIssued(s.log, s.fences) && Covered(s)
    requires s.lastRenderUse == s.fences.graphics
    requires i < |RenderStep(s).renderToCompute|
    ensures UsesAtMost(RenderStep(s).log, Graphics, RenderStep(s).renderToCompute[i].tex,
                       RenderStep(s).renderToCompute[i].lastUse)
  {
    var r := RenderStep(s);
    var e := r.renderToCompute[i];
    CensusRender(s);
    Apart(r);
    if i < |s.renderToCompute| {
      assert e == s.renderToCompute[i];
    } else {
      assert e == Entry(s.current.value, s.fences.graphics);
      IssuedBoundsUses(s.log, s.fences, Graphics, e.tex);
    }
    RenderExtraSparing(s, e.tex, Graphics, e.lastUse);
    RenderExtra(s);
    UsesAtMostAppend(s.log, r.log[|s.log|..], Graphics, e.tex, e.lastUse);
  }

  lemma RenderCoversRenderToCompute(s: State)
    requires PoolOk(s) && LogIssued(s.log, s.fences) && Covered(s)
    requires s.lastRenderUse == s.fences.graphics
    ensures forall i :: 0 <= i < |RenderStep(s).renderToCompute| ==>
      UsesAtMost(RenderStep(s).log, Graphics, RenderStep(s).renderToCompute[i].tex, RenderStep(s).renderToCompute[i].lastUse)
  {
    forall i | 0 <= i < |RenderStep(s).renderToCompute|
      ensures UsesAtMost(RenderStep(s).log, Graphics, RenderStep(s).renderToCompute[i].tex,
                         RenderStep(s).renderToCompute[i].lastUse)
    {
      RenderCoversEntry(s, i);
    }
  }

  lemma RenderCoversHeld(s: State)
    requires PoolOk(s) && Covered(s) && s.phase.Acquired?
    ensures UsesAtMost(RenderStep(s).log, Graphics, s.phase.tex, s.phase.lastUse)
  {
    var r := RenderStep(s);
    CensusRender(s);
    Apart(r);
    RenderExtra(s);
    var extra := r.log[|s.log|..];
    assert UsesAtMost(extra, Graphics, s.phase.tex, s.phase.lastUse);
    UsesAtMostAppend(s.log, extra, Graphics, s.phase.tex, s.phase.lastUse);
  }

  lemma RenderCoversComputeToRender(s: State)
    requires Covered(s)
    ensures forall i :: 0 <= i < |RenderStep(s).computeToRender| ==>
      UsesAtMost(RenderStep(s).log, Compute, RenderStep(s).computeToRender[i].tex, RenderStep(s).computeToRender[i].lastUse)
  {
    var r := RenderStep(s);
    RenderExtra(s);
    var extra := r.log[|s.log|..];
    forall i | 0 <= i < |r.computeToRender|
      ensures UsesAtMost(r.log, Compute, r.computeToRender[i].tex, r.computeToRender[i].lastUse)
    {
      var e := r.computeToRender[i];
      assert e == s.computeToRender[i + |s.computeToRender| - |r.computeToRender|];
      assert UsesAtMost(extra, Compute, e.tex, e.lastUse);
      UsesAtMostAppend(s.log, extra, Compute, e.tex, e.lastUse);
    }
  }

  lemma RenderRetires(s: State)
    requires LogIssued(s.log, s.fences) && s.lastRenderUse == s.fences.graphics
    ensures var r := RenderStep(s);
      |s.computeToRender| > 0 && s.current.Some? ==>
        && r.renderToCompute == s.renderToCompute + [Entry(s.current.value, s.lastRenderUse)]
        && (forall i :: (0 <= i < |s.log| && s.log[i].Submission? && s.log[i].queue == Graphics) ==>
              s.log[i].tag <= s.lastRenderUse)
  {
    IssuedBoundsAll(s.log, s.fences, Graphics);
  }

  lemma RenderDrawsDisplayed(s: State)
    ensures var r := RenderStep(s);
      forall k :: (|s.log| <= k < |r.log| && r.log[k].Submission?) ==> r.log[k].uses == r.current
  {
    RenderExtra(s);
  }

  lemma RenderKeepsApart(s: State)
    requires PoolOk(s)
    ensures var r := RenderStep(s);
      r.current.Some? ==>
        && (forall i :: 0 <= i < |r.renderToCompute| ==> r.renderToCompute[i].tex != r.current.value)
        && (r.phase.Acquired? ==> r.phase.tex != r.current.value)
  {
    CensusRender(s);
    Apart(RenderStep(s));
  }

  /**
   A render step keeps every texture in transit covered: a retired texture is
   tagged with a number no smaller than any graphics submission so far, and the
   step's draw binds only the displayed texture, which is in no queue and not in
   the compute thread's hands.
   */
  lemma RenderPreservesCovered(s: State)
    requires PoolOk(s) && LogIssued(s.log, s.fences) && Covered(s)
    requires s.lastRenderUse == s.fences.graphics
    ensures Covered(RenderStep(s))
    ensures var r := RenderStep(s);
      |s.computeToRender| > 0 && s.current.Some? ==>
        && r.renderToCompute == s.renderToCompute + [Entry(s.current.value, s.lastRenderUse)]
        && (forall i :: (0 <= i < |s.log| && s.log[i].Submission? && s.log[i].queue == Graphics) ==>
              s.log[i].tag <= s.lastRenderUse)
    ensures var r := RenderStep(s);
      forall k :: (|s.log| <= k < |r.log| && r.log[k].Submission?) ==> r.log[k].uses == r.current
    ensures var r := RenderStep(s);
      r.current.Some? ==>
        && (forall i :: 0 <= i < |r.renderToCompute| ==> r.renderToCompute[i].tex != r.current.value)
        && (r.phase.Acquired? ==> r.phase.tex != r.current.value)
  {
    RenderRetires(s);
    RenderDrawsDisplayed(s);
    RenderKeepsApart(s);
    RenderCoversRenderToCompute(s);
    if s.phase.Acquired? {
      RenderCoversHeld(s);
    }
    RenderCoversComputeToRender(s);
  }

  lemma PollPreservesCovered(s: State)
    requires Covered(s) && s.phase == Spin
    ensures Covered(Poll(s))
  {
    var r := Poll(s);
    if !s.terminate && |s.renderToCompute| > 0 {
      assert forall i :: 0 <= i < |r.renderToCompute| ==> r.renderToCompute[i] == s.renderToCompute[i + 1];
    }
  }

  /**
   A compute iteration keeps every texture in transit covered: the texture it
   pushes is tagged with the number of its own dispatch, above every earlier
   compute submission, and the dispatch binds only the held texture, which is
   not queued towards the render side.
   */
  lemma FinishPreservesCovered(s: State, tex: Tex, lastUse: Tag)
    requires Inv(s) && s.phase == Acquired(tex, lastUse)
    ensures Covered(Finish(s, tex, lastUse))
    ensures var r := Finish(s, tex, lastUse);
      !s.terminate ==>
        && r.computeToRender[|r.computeToRender| - 1] == Entry(tex, r.fences.compute)
        && (forall i :: (0 <= i < |s.log| && s.log[i].Submission? && s.log[i].queue == Compute) ==>
              s.log[i].tag < r.fences.compute)
        && (forall k :: (|s.log| <= k < |r.log| && r.log[k].Submission?) ==> r.log[k].uses == Some(tex))
        && (forall i :: 0 <= i < |s.computeToRender| ==> s.computeToRender[i].tex != tex)
  {
    var r := Finish(s, tex, lastUse);
    if !s.terminate {
      Apart(s);
      IssuedBoundsAll(s.log, s.fences, Compute);
      assert r.log == s.log + ComputeEvents(tex, lastUse, r.fences.compute);
      var tag := r.fences.compute;
      var extra := ComputeEvents(tex, lastUse, tag);
      forall i | 0 <= i < |r.renderToCompute|
        ensures UsesAtMost(r.log, Graphics, r.renderToCompute[i].tex, r.renderToCompute[i].lastUse)
      {
        UsesAtMostAppend(s.log, extra, Graphics, r.renderToCompute[i].tex, r.renderToCompute[i].lastUse);
      }
      forall i | 0 <= i < |r.computeToRender|
        ensures UsesAtMost(r.log, Compute, r.computeToRender[i].tex, r.computeToRender[i].lastUse)
      {
        var e := r.computeToRender[i];
        if i < |s.computeToRender| {
          assert e == s.computeToRender[i];
        } else {
          assert e == Entry(tex, tag);
          IssuedBoundsUses(s.log, s.fences, Compute, tex);
        }
        UsesAtMostAppend(s.log, extra, Compute, e.tex, e.lastUse);
      }
    }
  }

  lemma ComputePreservesInv(s: State)
    requires Inv(s)
    ensures Inv(ComputeStep(s))
  {
    match s.phase
    case Top =>
    case Spin => PollPreservesInv(s);
    case Acquired(tex, lastUse) => FinishPreservesInv(s, tex, lastUse);
    case Exited =>
  }

  lemma NextPreservesInv(s: State, a: Action)
    requires Inv(s)
    ensures Inv(Next(s, a))
  {
    match a
    case Render => RenderPreservesInv(s);
    case ComputeAction => ComputePreservesInv(s);
    case RequestShutdown => assert Census(Shutdown(s)) == Census(s);
  }

  lemma {:induction false} RunPreservesInv(s: State, actions: seq<Action>)
    requires Inv(s)
    ensures Inv(Run(s, actions))
    decreases |actions|
  {
    if |actions| > 0 {
      NextPreservesInv(s, actions[0]);
      RunPreservesInv(Next(s, actions[0]), actions[1..]);
    }
  }

  // ---------------------------------------------------------------------------
  // Consequences for every schedule

  /**
   Pool conservation: under any interleaving of the two threads and shutdown
   after a successful Init, no texture is in two places, only pool textures
   circulate, all NumTextures are accounted for while the compute thread runs,
   and at most one is missing after it has exited.
   */
  lemma PoolConserved(actions: seq<Action>)
    ensures Init(true).Some?
    ensures var s := Run(Init(true).value, actions);
      && NoDuplicates(Census(s))
      && (forall t :: t in Census(s) ==> t < NumTextures)
      && (!s.phase.Exited? ==> |Census(s)| == NumTextures)
      && |Census(s)| + 1 >= NumTextures
  {
    InitEstablishesInv();
    var s := Run(Init(true).value, actions);
    RunPreservesInv(Init(true).value, actions);
    WithinPool(Census(s));
    PoolIsDistinct();
  }

  /**
   Fence monotonicity and wait soundness on every schedule: each hardware
   queue's submissions carry strictly increasing numbers, and every recorded
   wait names a number its queue has already issued.
   */
  lemma TagsSoundOnEverySchedule(actions: seq<Action>)
    ensures Init(true).Some?
    ensures var s := Run(Init(true).value, actions);
      && SubmissionsIncrease(s.log)
      && (forall i :: 0 <= i < |s.log| && s.log[i].QueueWait? ==>
            s.log[i].tag <= Issued(s.fences, s.log[i].signaller))
  {
    InitEstablishesInv();
    RunPreservesInv(Init(true).value, actions);
  }

  // ---------------------------------------------------------------------------
  // Wait rules

  /**
   The render side's wait always names real compute work: the popped texture's
   tag is non-zero and already issued by the compute queue, and the wait is
   recorded right before the draw that samples that texture.
   */
  lemma RenderWaitNamesIssuedComputeWork(s: State)
    requires Inv(s) && |s.computeToRender| > 0
    ensures var r := RenderStep(s); var t := s.computeToRender[0];
      && 0 < t.lastUse <= s.fences.compute
      && r.log[|s.log|] == QueueWait(Graphics, Compute, t.lastUse)
      && r.log[|s.log| + 1] == Submission(Graphics, r.fences.graphics, Some(t.tex))
  {
  }

  /**
   A retired texture is tagged with a number no smaller than any graphics
   submission so far. That later draws never sample it while it is away is the
   `Covered` invariant, used by `ComputeWaitCoversEveryDraw`.
   */
  lemma RetiredTagCoversEveryDraw(s: State)
    requires Inv(s) && |s.computeToRender| > 0 && s.current.Some?
    ensures var r := RenderStep(s);
      var retired := r.renderToCompute[|r.renderToCompute| - 1];
      && retired.tex == s.current.value
      && (forall i :: 0 <= i < |s.log| && s.log[i].Submission? && s.log[i].queue == Graphics ==>
            s.log[i].tag <= retired.lastUse)
  {
  }

  /** Whether `events` contains a cross-queue wait. */
  predicate HasWait(events: seq<Event>)
  {
    exists i :: 0 <= i < |events| && events[i].QueueWait?
  }

  /**
   A compute iteration that does not observe terminate records a
   compute-waits-on-graphics wait exactly when the texture's tag is non-zero,
   with that tag, right before its one submission, which binds the texture and
   is issued the next compute sequence number; the texture goes to the render
   side tagged with that number.
   */
  lemma ComputeWaitIffTagPositive(s: State, tex: Tex, lastUse: Tag)
    requires !s.terminate
    ensures var r := Finish(s, tex, lastUse); var added := r.log[|s.log|..];
      && |s.log| <= |r.log|
      && r.log[..|s.log|] == s.log
      && (HasWait(added) <==> lastUse > 0)
      && (lastUse > 0 ==> added == [QueueWait(Compute, Graphics, lastUse),
                                    Submission(Compute, r.fences.compute, Some(tex))])
      && (lastUse == 0 ==> added == [Submission(Compute, r.fences.compute, Some(tex))])
      && r.computeToRender[|r.computeToRender| - 1] == Entry(tex, r.fences.compute)
  {
    var r := Finish(s, tex, lastUse);
    var added := r.log[|s.log|..];
    assert added == ComputeEvents(tex, lastUse, s.fences.compute + 1);
    if lastUse > 0 {
      assert added[0].QueueWait?;
    }
  }

  /**
   The compute side's wait is sufficient: every draw recorded so far that
   sampled the held texture was issued a number no larger than its tag, so the
   tag is non-zero and the iteration's first event is the wait for it, ahead of
   the dispatch that writes the texture. A zero tag therefore means no draw has
   ever sampled the texture, which is why the wait can be skipped.
   */
  lemma ComputeWaitCoversEveryDraw(s: State)
    requires Inv(s) && s.phase.Acquired? && !s.terminate
    ensures var r := ComputeStep(s); var tex, lastUse := s.phase.tex, s.phase.lastUse;
      && r.log[|r.log| - 1] == Submission(Compute, r.fences.compute, Some(tex))
      && (forall i :: (0 <= i < |s.log| && s.log[i].Submission? && s.log[i].queue == Graphics
                       && s.log[i].uses == Some(tex)) ==>
            && 0 < s.log[i].tag <= lastUse
            && r.log[|s.log|] == QueueWait(Compute, Graphics, lastUse))
  {
    var tex, lastUse := s.phase.tex, s.phase.lastUse;
    ComputeWaitIffTagPositive(s, tex, lastUse);
  }

  /**
   The render side's wait is sufficient: every dispatch recorded so far that
   wrote the texture about to be displayed was issued a number no larger than
   its tag, and the step's first event is the graphics queue's wait for that
   tag, ahead of the draw that samples the texture.
   */
  lemma RenderWaitCoversEveryDispatch(s: State)
    requires Inv(s) && |s.computeToRender| > 0
    ensures var r := RenderStep(s); var t := s.computeToRender[0];
      && r.log[|s.log|] == QueueWait(Graphics, Compute, t.lastUse)
      && r.log[|s.log| + 1] == Submission(Graphics, r.fences.graphics, Some(t.tex))
      && (forall i :: (0 <= i < |s.log| && s.log[i].Submission? && s.log[i].queue == Compute
                       && s.log[i].uses == Some(t.tex)) ==> s.log[i].tag <= t.lastUse)
  {
    assert UsesAtMost(s.log, Compute, s.computeToRender[0].tex, s.computeToRender[0].lastUse);
  }

  /**
   On every schedule from a successful Init, every texture in transit or in the
   compute thread's hands carries a tag covering all the other side's work with
   it, and every submission is numbered from 1.
   */
  lemma WaitsCoverOnEverySchedule(actions: seq<Action>)
    ensures Init(true).Some?
    ensures var s := Run(Init(true).value, actions);
      Covered(s) && SubmissionsPositive(s.log)
  {
    InitEstablishesInv();
    RunPreservesInv(Init(true).value, actions);
  }

  /** A compute iteration that observes terminate submits nothing and pushes nothing. */
  lemma TerminatedComputeSubmitsNothing(s: State)
    requires s.terminate
    ensures var r := ComputeStep(s);
      && r.phase == Exited
      && r.log == s.log && r.fences == s.fences
      && r.computeToRender == s.computeToRender
      && ComputeStep(r) == r
  {
  }

  /**
   Once a texture is on display, every later frame shows a texture: either the
   one shown before or the newer one that just arrived, never a blank frame.
   */
  lemma {:induction false} DisplayNeverBlank(s: State, actions: seq<Action>)
    requires s.current.Some?
    ensures Run(s, actions).current.Some?
    decreases |actions|
  {
    if |actions| > 0 {
      var s' := Next(s, actions[0]);
      assert s'.current.Some?;
      DisplayNeverBlank(s', actions[1..]);
    }
  }
}
