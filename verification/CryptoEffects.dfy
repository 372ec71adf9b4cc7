/** What each call does to the processor and to its operations, field by field. */
module CryptoEffects {
  import opened Basics
  import opened Priorities
  import opened Crypto

  /** All operations but x stayed as they were, and only x may be gone. */
  ghost predicate OnlyTouches<I>(p: Processor<I>, q: Processor<I>, x: I) {
    && p.ops.Keys - {x} <= q.ops.Keys <= p.ops.Keys && q.seen == p.seen
    && forall y :: y in p.ops && y != x ==> q.ops[y] == p.ops[y]
  }

  /** An operation that is kept: idle, with a fault, and without the buffer that it owned. */
  function Kept(op: Op, fault: Fault): Op {
    Op(Idle, fault, op.hasCallback, op.keep, op.rng, op.hasResult && !op.freesResult,
       if op.hasResult && op.freesResult then 0 else op.resultLen, op.allocates, op.freesResult)
  }

  /** From p to q operation x ended with a fault or without one: it was counted, and it is idle again or freed. */
  ghost predicate Ends<I>(p: Processor<I>, q: Processor<I>, x: I, fault: Fault)
    requires x in p.ops
  {
    && OnlyTouches(p, q, x)
    && q.total == p.total + 1 && q.failed == p.failed + (if fault == NoFault then 0 else 1)
    && (if p.ops[x].keep then x in q.ops && q.ops[x] == Kept(p.ops[x], fault) && q.frees == p.frees
        else x !in q.ops && q.frees == p.frees + 1)
  }

  /** Nothing was counted, freed or forgotten. */
  ghost predicate NoneEnds<I>(p: Processor<I>, q: Processor<I>) {
    q.total == p.total && q.failed == p.failed && q.frees == p.frees && q.ops.Keys == p.ops.Keys
  }

  lemma ReclaimEnds<I>(p: Processor<I>, x: I)
    requires x in p.ops
    ensures Ends(p, Reclaim(p, x), x, p.ops[x].fault)
  {
  }

  // ----- submitting

  /** The code of a submission tells where the operation is afterwards: 0, queued; -1, it was in the
      processor already and nothing changed; -2, flushed and waiting to be called back. */
  ghost predicate Submitted<I>(p: Processor<I>, q: Processor<I>, x: I, priority: int, code: int)
    requires x in p.ops
  {
    var e := Entry(x, priority);
    && (code == -1 <==> Places(p, x) == 1) && (code == -1 ==> q == p)
    && (code != -1 ==>
          && OnlyTouches(p, q, x) && NoneEnds(p, q)
          && q.current == p.current && q.log == p.log + [Accepted(x)]
          && (if |p.work| < p.depth then
                code == 0 && q.work == Insert(p.work, e) && q.callbacks == p.callbacks
                && q.ops[x] == p.ops[x].(state := Queued)
              else
                code == -2 && q.work == p.work && q.callbacks == Insert(p.callbacks, e)
                && q.ops[x] == p.ops[x].(state := Complete, fault := QueueFlush)))
  }

  lemma QueueJobAnswers<I>(p: Processor<I>, x: I, priority: int)
    requires Invariant(p) && x in p.ops
    ensures var (q, code) := QueueJob(p, x, priority); Submitted(p, q, x, priority, code)
  {
    assert Placed(p, x);
  }

  // ----- working

  /** A random-number operation at its start gets a result buffer if it may and knows its length, or faults. */
  predicate GetsMemory(op: Op) {
    op.rng && (op.state == Queued || op.state == Initiate) && !op.hasResult && op.resultLen > 0 && op.allocates
  }

  predicate LacksMemory(op: Op) {
    op.rng && (op.state == Queued || op.state == Initiate) && !op.hasResult && (op.resultLen == 0 || !op.allocates)
  }

  /** Does the operation leave the active slot? */
  predicate Leaves(op: Op, o: Outcome) {
    op.state == Complete || if op.rng then LacksMemory(op) else o.code != NoFault
  }

  /** A random-number operation is complete after one step, any other is what its implementation made of it. */
  function Moved(op: Op, o: Outcome): Op {
    if op.state == Complete then op
    else if op.rng then op.(state := Complete, hasResult := op.hasResult || GetsMemory(op),
                            freesResult := op.freesResult || GetsMemory(op))
    else op.(state := if o.code == NoFault then o.state else Complete, fault := o.fault)
  }

  /** From p to q the active operation x, taken from the queue if there was none, went one step; if it was
      complete, or has faulted, it was handed to the callback queue. */
  ghost predicate Worked<I>(p: Processor<I>, q: Processor<I>, x: I, o: Outcome)
    requires x in p.ops
  {
    && OnlyTouches(p, q, x) && NoneEnds(p, q) && q.log == p.log && x in q.ops && q.ops[x] == Moved(p.ops[x], o)
    && q.work == (if p.current == None && p.work != [] then p.work[1..] else p.work)
    && (if Leaves(p.ops[x], o) then q.current == None && q.callbacks == Insert(p.callbacks, Entry(x, 0))
        else q.current == Some(x) && q.callbacks == p.callbacks)
  }

  /** The work of one poll: the active operation, or else the first of the queue, goes one step. */
  ghost predicate WorkTurn<I>(p: Processor<I>, q: Processor<I>, o: Outcome) {
    match p.current
    case Some(x) => x in p.ops && Worked(p, q, x, o)
    case None => if p.work == [] then q == p else p.work[0].data in p.ops && Worked(p, q, p.work[0].data, o)
  }

  /** The step of an operation that has begun. */
  lemma OpMoves(op: Op, o: Outcome)
    requires op.state == Queued || InProgress(op.state)
    ensures var (moved, code) := Advance(Begun(op), o); moved == Moved(op, o) && (code != NoFault <==> Leaves(op, o))
  {
  }

  lemma AdvanceCurrentMoves<I>(p: Processor<I>, x: I, o: Outcome)
    requires p.current == Some(x) && x in p.ops && p.ops[x].state != Undef && p.ops[x].state != Idle
    ensures Worked(p, AdvanceCurrent(p, o), x, o)
  {
    if p.ops[x].state != Complete {
      OpMoves(p.ops[x], o);
    }
  }

  lemma AdvanceWorkMoves<I>(p: Processor<I>, o: Outcome)
    requires Invariant(p) && ValidOutcome(o)
    ensures WorkTurn(p, AdvanceWork(p, o), o)
  {
    TakeJobKeeps(p);
    var t := TakeJob(p);
    if t.current.Some? {
      AdvanceCurrentMoves(t, t.current.value, o);
    }
  }

  // ----- calling back

  /** From p to q the first operation x of the callback queue was called back.  If it has a callback that asks for
      it, its fault is cleared and it is submitted again, else it ends. */
  ghost predicate CalledBack<I>(p: Processor<I>, q: Processor<I>, x: I, answer: int)
    requires p.callbacks != [] && x in p.ops
  {
    var rest := p.callbacks[1..];
    if p.ops[x].hasCallback && answer == 1 then
      && OnlyTouches(p, q, x) && NoneEnds(p, q)
      && q.current == p.current && q.log == p.log + [Finished(x, true)] + [Accepted(x)]
      && (if |p.work| < p.depth then
            q.work == Insert(p.work, Entry(x, 0)) && q.callbacks == rest
            && q.ops[x] == p.ops[x].(state := Queued, fault := NoFault)
          else
            q.work == p.work && q.callbacks == Insert(rest, Entry(x, 0))
            && q.ops[x] == p.ops[x].(state := Complete, fault := QueueFlush))
    else
      && Ends(p, q, x, p.ops[x].fault) && q.log == p.log + [Finished(x, false)]
      && q.current == p.current && q.work == p.work && q.callbacks == rest
  }

  /** The callbacks of one poll: the first of the queue is called back. */
  ghost predicate CallbackTurn<I>(p: Processor<I>, q: Processor<I>, answer: int) {
    if p.callbacks == [] then q == p
    else p.callbacks[0].data in p.ops && CalledBack(p, q, p.callbacks[0].data, answer)
  }

  lemma AdvanceCallbacksAnswers<I>(p: Processor<I>, answer: int)
    requires Invariant(p)
    ensures CallbackTurn(p, AdvanceCallbacks(p, answer), answer)
  {
    if p.callbacks != [] {
      var x := p.callbacks[0].data;
      assert Placed(p, x);
      CalledNext(p, answer);
      if p.ops[x].hasCallback && answer == RECYCLE {
        CalledKeeps(p, answer);
        QueueJobAnswers(Called(p, answer), x, 0);
      } else {
        ReclaimEnds(p.(callbacks := p.callbacks[1..], log := p.log + [Finished(x, false)]), x);
      }
    }
  }

  // ----- purging

  /** From p to q the active operation x was aborted, and ended as a failure. */
  ghost predicate Aborted<I>(p: Processor<I>, q: Processor<I>, x: I)
    requires x in p.ops
  {
    && Ends(p, q, x, QueueFlush) && q.log == p.log + [Finished(x, false)]
    && q.current == None && q.work == p.work && q.callbacks == p.callbacks
  }

  lemma PurgeCurrentAborts<I>(p: Processor<I>)
    requires Invariant(p)
    ensures var q := PurgeCurrent(p);
      match p.current
      case None => q == p
      case Some(x) => Aborted(p, q, x)
  {
    if p.current.Some? {
      FlushEnds(p.(current := None), p.current.value);
    }
  }

  /** From p to q all queued jobs were answered in queue order and counted as failed; the active job and the
      callbacks stayed.  Operations that were queued are idle with the fault, or gone; all others stayed. */
  ghost predicate Purged<I>(p: Processor<I>, q: Processor<I>) {
    && q.work == [] && q.log == p.log + Answers(p.work)
    && q.failed == p.failed + |p.work| && q.total == p.total + |p.work|
    && q.current == p.current && q.callbacks == p.callbacks && q.ops.Keys <= p.ops.Keys
    && forall x :: x in p.ops ==>
        if Holds(p.work, x) == 0 then x in q.ops && q.ops[x] == p.ops[x]
        else if p.ops[x].keep then x in q.ops && q.ops[x] == Kept(p.ops[x], QueueFlush)
        else x !in q.ops
  }

  lemma {:induction false} PurgeAnswersAll<I>(p: Processor<I>)
    requires Invariant(p)
    ensures Purged(p, PurgeQueued(p))
    decreases |p.work|
  {
    if p.work == [] {
      assert p.log + [] == p.log;
    } else {
      var q, x := p.(work := p.work[1..]), p.work[0].data;
      Unqueued(p);
      FlushKeeps(q, x);
      FlushEnds(q, x);
      PurgeAnswersAll(Flush(q, x));
      PurgedOn(p, Flush(q, x), PurgeQueued(Flush(q, x)));
    }
  }

  lemma FlushEnds<I>(p: Processor<I>, x: I)
    requires x in p.ops
    ensures Ends(p, Flush(p, x), x, QueueFlush) && Flush(p, x).log == p.log + [Finished(x, false)]
    ensures var q := Flush(p, x); q.current == p.current && q.work == p.work && q.callbacks == p.callbacks
  {
    ReclaimEnds(p.(ops := p.ops[x := Abort(p.ops[x], QueueFlush)], log := p.log + [Finished(x, false)]), x);
  }

  lemma PurgedOn<I>(p: Processor<I>, r: Processor<I>, q: Processor<I>)
    requires p.work != [] && p.work[0].data in p.ops && Holds(p.work[1..], p.work[0].data) == 0
    requires Ends(p, r, p.work[0].data, QueueFlush) && r.log == p.log + [Finished(p.work[0].data, false)]
    requires r.current == p.current && r.work == p.work[1..] && r.callbacks == p.callbacks
    requires Purged(r, q)
    ensures Purged(p, q)
  {
    Associative(p.log, [Finished(p.work[0].data, false)], Answers(p.work[1..]));
  }
}
