/**
 The mutex-protected FIFO of (texture, last-use tag) pairs that carries textures
 between the render thread and the compute thread.

 Each `Push` and `TryPop` holds the queue's lock for its whole duration, so each
 call is modelled as one atomic step on an immutable sequence whose front is the
 oldest entry.
 */
module TextureQueue {

  /** A possibly-null handle; `None` is the null texture handle. */
  datatype Option<+T> = None | Some(value: T)

  /** An opaque texture handle. */
  type Tex = nat

  /** A submission sequence number; 0 means "never used on any queue". */
  type Tag = nat

  /** One queued texture together with the tag of its last use. */
  datatype Entry = Entry(tex: Tex, lastUse: Tag)

  type Queue = seq<Entry>

  /** The multiset of textures owned by a queue. */
  function Textures(q: Queue): multiset<Tex>
  {
    if |q| == 0 then multiset{} else multiset{q[0].tex} + Textures(q[1..])
  }

  /** The multiset of textures owned by a handle slot (nothing when null). */
  function Held(slot: Option<Tex>): multiset<Tex>
  {
    if slot.Some? then multiset{slot.value} else multiset{}
  }

  lemma {:induction false} TexturesAppend(q: Queue, e: Entry)
    ensures Textures(q + [e]) == Textures(q) + multiset{e.tex}
  {
    if |q| == 0 {
      assert q + [e] == [e];
      assert [e][1..] == [];
    } else {
      assert (q + [e])[1..] == q[1..] + [e];
      TexturesAppend(q[1..], e);
    }
  }

  /**
   Push transfers ownership of `texture` into the queue behind every entry
   already queued; it never blocks and never fails.
   */
  function Push(q: Queue, texture: Tex, lastUse: Tag): (r: Queue)
    ensures |r| == |q| + 1
    ensures r[..|q|] == q
    ensures r[|q|] == Entry(texture, lastUse)
    ensures Textures(r) == Textures(q) + multiset{texture}
  {
    TexturesAppend(q, Entry(texture, lastUse));
    q + [Entry(texture, lastUse)]
  }

  /**
   The outcome of TryPop: the boolean it returns, the queue it leaves behind and
   the final values of its two out-parameters.
   */
  datatype PopResult = PopResult(ok: bool, rest: Queue, tex: Option<Tex>, lastUse: Tag)

  /**
   TryPop with the caller's out-parameters `outTex` and `outLastUse`. On an empty
   queue nothing changes and false is returned. Otherwise the front handle is
   swapped into `outTex` (the caller's previous handle ends up in the front node,
   which is then destroyed by the pop), its tag is copied into `outLastUse`, and
   exactly that one entry is removed.
   */
  function TryPop(q: Queue, outTex: Option<Tex>, outLastUse: Tag): (r: PopResult)
    ensures r.ok <==> |q| > 0
    ensures !r.ok ==> r.rest == q && r.tex == outTex && r.lastUse == outLastUse
    ensures r.ok ==> r.tex.Some? && q == [Entry(r.tex.value, r.lastUse)] + r.rest
    ensures r.ok ==> Textures(q) == Textures(r.rest) + multiset{r.tex.value}
  {
    if |q| == 0 then
      PopResult(false, q, outTex, outLastUse)
    else
      assert q == [q[0]] + q[1..];
      PopResult(true, q[1..], Some(q[0].tex), q[0].lastUse)
  }

  /** `Push(r, 0)` on an empty queue followed by `TryPop` yields exactly `(r, 0)`. */
  lemma PushThenPopOnEmpty(texture: Tex)
    ensures TryPop(Push([], texture, 0), None, 0) == PopResult(true, [], Some(texture), 0)
  {
  }

  /** One call made on a queue by either thread. */
  datatype QueueOp = PushOp(entry: Entry) | PopOp

  /** The entries a sequence of calls pushes, in call order. */
  function Pushed(ops: seq<QueueOp>): seq<Entry>
  {
    if |ops| == 0 then []
    else (if ops[0].PushOp? then [ops[0].entry] else []) + Pushed(ops[1..])
  }

  /** What a sequence of calls leaves behind: the queue and the entries popped, in order. */
  datatype Outcome = Outcome(left: Queue, delivered: seq<Entry>)

  /** The entries a single pop delivers: the front entry, or nothing on an empty queue. */
  function Delivered(p: PopResult): seq<Entry>
  {
    if p.ok && p.tex.Some? then [Entry(p.tex.value, p.lastUse)] else []
  }

  /**
   Applies the calls in order, each as one atomic step (pops pass a null handle
   and tag 0, as both call sites do).
   */
  function Apply(q: Queue, ops: seq<QueueOp>): Outcome
    decreases |ops|
  {
    if |ops| == 0 then Outcome(q, [])
    else if ops[0].PushOp? then
      Apply(Push(q, ops[0].entry.tex, ops[0].entry.lastUse), ops[1..])
    else
      var p := TryPop(q, None, 0);
      var o := Apply(p.rest, ops[1..]);
      Outcome(o.left, Delivered(p) + o.delivered)
  }

  /** A single pop splits the queue into what it delivers and what it leaves. */
  lemma PopSplits(q: Queue)
    ensures Delivered(TryPop(q, None, 0)) + TryPop(q, None, 0).rest == q
  {
  }

  lemma PushStepIsFifo(q: Queue, ops: seq<QueueOp>)
    requires |ops| > 0 && ops[0].PushOp?
    requires var q' := Push(q, ops[0].entry.tex, ops[0].entry.lastUse);
      Apply(q', ops[1..]).delivered + Apply(q', ops[1..]).left == q' + Pushed(ops[1..])
    ensures Apply(q, ops).delivered + Apply(q, ops).left == q + Pushed(ops)
  {
  }

  lemma PopStepIsFifo(q: Queue, ops: seq<QueueOp>)
    requires |ops| > 0 && ops[0].PopOp?
    requires var p := TryPop(q, None, 0);
      Apply(p.rest, ops[1..]).delivered + Apply(p.rest, ops[1..]).left == p.rest + Pushed(ops[1..])
    ensures Apply(q, ops).delivered + Apply(q, ops).left == q + Pushed(ops)
  {
    var p := TryPop(q, None, 0);
    var o := Apply(p.rest, ops[1..]);
    var d, tail := Delivered(p), Pushed(ops[1..]);
    assert Apply(q, ops) == Outcome(o.left, d + o.delivered);
    assert Pushed(ops) == tail;
    PopSplits(q);
    SeqAssoc(d, o.delivered, o.left);
    SeqAssoc(d, p.rest, tail);
  }

  /** Regrouping a concatenation; kept separate so the pop step's proof stays small. */
  lemma SeqAssoc<T>(a: seq<T>, b: seq<T>, c: seq<T>)
    ensures (a + b) + c == a + (b + c)
  {
  }

  /**
   FIFO: whatever interleaving of pushes and pops is applied, the entries popped
   followed by those still queued are exactly the entries that were queued
   followed by those pushed, in order; nothing is lost, duplicated or reordered.
   */
  lemma {:induction false} ApplyIsFifo(q: Queue, ops: seq<QueueOp>)
    ensures Apply(q, ops).delivered + Apply(q, ops).left == q + Pushed(ops)
    decreases |ops|
  {
    if |ops| == 0 {
      assert q + Pushed(ops) == q;
    } else if ops[0].PushOp? {
      ApplyIsFifo(Push(q, ops[0].entry.tex, ops[0].entry.lastUse), ops[1..]);
      PushStepIsFifo(q, ops);
    } else {
      ApplyIsFifo(TryPop(q, None, 0).rest, ops[1..]);
      PopStepIsFifo(q, ops);
    }
  }

  /** The calls that push `entries` one after another. */
  function PushAll(entries: seq<Entry>): (ops: seq<QueueOp>)
  {
    if |entries| == 0 then [] else [PushOp(entries[0])] + PushAll(entries[1..])
  }

  /** `n` consecutive pop calls. */
  function PopAll(n: nat): seq<QueueOp>
  {
    if n == 0 then [] else [PopOp] + PopAll(n - 1)
  }

  lemma {:induction false} ApplyPushesFirst(q: Queue, entries: seq<Entry>, rest: seq<QueueOp>)
    ensures Apply(q, PushAll(entries) + rest) == Apply(q + entries, rest)
    decreases |entries|
  {
    if |entries| > 0 {
      var ops := PushAll(entries) + rest;
      assert ops[0] == PushOp(entries[0]);
      assert ops[1..] == PushAll(entries[1..]) + rest;
      ApplyPushesFirst(Push(q, entries[0].tex, entries[0].lastUse), entries[1..], rest);
      assert Push(q, entries[0].tex, entries[0].lastUse) + entries[1..] == q + entries;
    } else {
      assert PushAll(entries) + rest == rest;
      assert q + entries == q;
    }
  }

  lemma {:induction false} ApplyPopsDrain(q: Queue)
    ensures Apply(q, PopAll(|q|)) == Outcome([], q)
  {
    if |q| > 0 {
      ApplyPopsDrain(q[1..]);
    }
  }

  /** `n` pushes followed by `n` pops deliver the pushed entries in push order and leave the queue empty. */
  lemma PushesPopInOrder(entries: seq<Entry>)
    ensures Apply([], PushAll(entries) + PopAll(|entries|)) == Outcome([], entries)
  {
    ApplyPushesFirst([], entries, PopAll(|entries|));
    assert [] + entries == entries;
    ApplyPopsDrain(entries);
  }
}
