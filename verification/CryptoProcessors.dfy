/** Operations and their processor as objects.  The two queues are sequences of entries; inserting is
    what the priority queue is proved to do. */
module CryptoProcessors {
  import opened Basics
  import opened Priorities
  import Crypto
  import CryptoEffects

  /** What a signed byte shows after so many increments from zero. */
  function SignedByte(n: nat): (b: int)
    ensures b == (n + 128) % 256 - 128 && (b == n <==> n < 128)
  {
    if n == 0 then 0
    else
      var b := SignedByte(n - 1);
      if b == 127 then -128 else b + 1
  }

  class CryptOp {
    const rng: bool
    const hasCallback: bool
    var state: Crypto.OpState
    var fault: Crypto.Fault
    var keep: bool
    var allocates: bool
    var freesResult: bool
    var hasResult: bool
    var resultLen: nat

    constructor (rng: bool, hasCallback: bool)
      ensures Value() == Crypto.Op(Crypto.Idle, Crypto.NoFault, hasCallback, false, rng, false, 0, false, false)
    {
      this.rng, this.hasCallback := rng, hasCallback;
      state, fault, keep, allocates, freesResult := Crypto.Idle, Crypto.NoFault, false, false, false;
      hasResult, resultLen := false, 0;
    }

    ghost function Value(): Crypto.Op
      reads this
    {
      Crypto.Op(state, fault, hasCallback, keep, rng, hasResult, resultLen, allocates, freesResult)
    }

    method Abort(f: Crypto.Fault)
      modifies this
      ensures Value() == Crypto.Abort(old(Value()), f)
    {
      fault, state := f, Crypto.Complete;
    }

    method MarkForRequeue()
      modifies this
      ensures Value() == Crypto.MarkForRequeue(old(Value()))
    {
      fault, state := Crypto.NoFault, Crypto.Idle;
    }

    method Wipe()
      modifies this
      ensures Value() == Crypto.Wiped(old(Value()))
    {
      if freesResult && hasResult {
        hasResult, resultLen := false, 0;
      }
    }

    /** The random number generator falls from each phase into the next. */
    method AdvanceRng() returns (code: Crypto.Fault)
      modifies this
      ensures (Value(), code) == Crypto.AdvanceRng(old(Value()))
      ensures old(state) == Crypto.Initiate && !old(hasResult) && !(old(resultLen) > 0 && old(allocates)) ==>
        code == Crypto.Mem && Value() == old(Value())
      ensures Crypto.InProgress(old(state)) && code == Crypto.NoFault ==>
        state == Crypto.Complete && fault == old(fault) && resultLen == old(resultLen)
        && (hasResult <==> old(hasResult) || old(state) == Crypto.Initiate)
    {
      code := Crypto.NoFault;
      var phase := state;
      if phase == Crypto.Initiate {
        if !hasResult {
          if 0 < resultLen && allocates {
            hasResult, freesResult := true, true;
          }
          if !hasResult {
            return Crypto.Mem;
          }
        } else {
          state := Crypto.Wait;
        }
        phase := Crypto.Wait;
      }
      if phase == Crypto.Wait {
        state := Crypto.Cleanup;
        phase := Crypto.Cleanup;
      }
      if phase == Crypto.Cleanup {
        state := Crypto.Complete;
      }
    }

    /** One step; what an implementation other than the random number generator does is given. */
    method Advance(o: Crypto.Outcome) returns (code: Crypto.Fault)
      modifies this
      ensures (Value(), code) == Crypto.Advance(old(Value()), o)
      ensures old(state) == Crypto.Idle || old(state) == Crypto.Queued ==>
        code == Crypto.IllegalState && state == Crypto.Complete && fault == old(fault)
      ensures Crypto.InProgress(old(state)) && !rng ==>
        code == o.code && fault == o.fault && state == if o.code == Crypto.NoFault then o.state else Crypto.Complete
    {
      code := Crypto.NoFault;
      match state {
        case Idle => code := Crypto.IllegalState;
        case Queued => code := Crypto.IllegalState;
        case Initiate | Wait | Cleanup =>
          if rng {
            code := AdvanceRng();
          } else {
            state, fault, code := o.state, o.fault, o.code;
          }
        case Complete | Undef =>
      }
      if code != Crypto.NoFault {
        state := Crypto.Complete;
      }
    }
  }

  class CryptoProcessor {
    const maxDepth: nat
    var workQueue: seq<Entry<CryptOp>>
    var callbackQueue: seq<Entry<CryptOp>>
    var currentJob: CryptOp?
    var totalJobs: nat
    var failedJobs: nat
    var heapFrees: nat
    ghost var ops: map<CryptOp, Crypto.Op>
    ghost var seen: set<CryptOp>
    ghost var log: seq<Crypto.Note<CryptOp>>

    ghost predicate Valid()
      reads this, ops.Keys
    {
      Current() && Crypto.Invariant(View())
    }

    /** ops is what the operations that exist hold. */
    ghost predicate Current()
      reads this`ops, ops.Keys
    {
      forall op :: op in ops ==> op.Value() == ops[op]
    }

    ghost function View(): Crypto.Processor<CryptOp>
      reads this
    {
      Crypto.Processor(ops, maxDepth, workQueue, if currentJob == null then None else Some(currentJob),
                       callbackQueue, totalJobs, failedJobs, heapFrees, seen, log)
    }

    constructor (maxDepth: nat)
      ensures Valid() && View() == Crypto.Empty(maxDepth)
    {
      this.maxDepth := maxDepth;
      workQueue, callbackQueue := [], [];
      currentJob, totalJobs, failedJobs, heapFrees := null, 0, 0, 0;
      ops, seen, log := map[], {}, [];
    }

    /** Takes an idle operation into the work queue, or flushes it if there is no room. */
    method QueueJob(op: CryptOp, priority: int) returns (code: int)
      requires Valid() && op in ops
      modifies this`workQueue, this`callbackQueue, this`ops, this`log, op
      ensures Valid() && (View(), code) == Crypto.QueueJob(old(View()), op, priority)
      ensures CryptoEffects.Submitted(old(View()), View(), op, priority, code)
    {
      Crypto.QueueJobKeeps(View(), op, priority);
      CryptoEffects.QueueJobAnswers(View(), op, priority);
      code := Take(op, priority);
    }

    method Take(op: CryptOp, priority: int) returns (code: int)
      requires Current() && op in ops
      modifies this`workQueue, this`callbackQueue, this`ops, this`log, op
      ensures Current() && (View(), code) == Crypto.QueueJob(old(View()), op, priority)
    {
      code := -1;
      if op.state == Crypto.Idle {
        code := -2;
        if !(|workQueue| < maxDepth) {
          Flood(op, priority);
        } else if Crypto.Holds(workQueue, op) == 0 {
          Enqueue(op, priority);
          code := 0;
        }
      }
    }

    method Flood(op: CryptOp, priority: int)
      requires Current() && op in ops
      modifies this`callbackQueue, this`ops, this`log, op
      ensures Current() && ops == old(ops)[op := Crypto.Abort(old(ops)[op], Crypto.QueueFlush)]
      ensures callbackQueue == Crypto.InsertIfAbsent(old(callbackQueue), op, priority)
      ensures log == old(log) + [Crypto.Accepted(op)]
    {
      op.Abort(Crypto.QueueFlush);
      callbackQueue := Crypto.InsertIfAbsent(callbackQueue, op, priority);
      ops, log := ops[op := Crypto.Abort(ops[op], Crypto.QueueFlush)], log + [Crypto.Accepted(op)];
    }

    method Enqueue(op: CryptOp, priority: int)
      requires Current() && op in ops
      modifies this`workQueue, this`ops, this`log, op
      ensures Current() && ops == old(ops)[op := old(ops)[op].(state := Crypto.Queued)]
      ensures workQueue == Insert(old(workQueue), Entry(op, priority))
      ensures log == old(log) + [Crypto.Accepted(op)]
    {
      workQueue := Insert(workQueue, Entry(op, priority));
      op.state := Crypto.Queued;
      ops, log := ops[op := ops[op].(state := Crypto.Queued)], log + [Crypto.Accepted(op)];
    }

    /** Counts a finished job, and frees it or leaves it idle. */
    method ReclaimQueueItem(op: CryptOp)
      requires op in ops && Current()
      modifies this`totalJobs, this`failedJobs, this`heapFrees, this`ops, op
      ensures View() == Crypto.Reclaim(old(View()), op) && Current()
      ensures CryptoEffects.Ends(old(View()), View(), op, old(op.fault))
    {
      CryptoEffects.ReclaimEnds(View(), op);
      totalJobs := totalJobs + 1;
      if op.fault != Crypto.NoFault {
        failedJobs := failedJobs + 1;
      }
      if !op.keep {
        ops := ops - {op};
        heapFrees := heapFrees + 1;
      } else {
        MakeIdle(op);
      }
    }

    method MakeIdle(op: CryptOp)
      requires op in ops && Current()
      modifies this`ops, op
      ensures Current() && ops == old(ops)[op := Crypto.Wiped(old(ops)[op]).(state := Crypto.Idle)]
    {
      op.Wipe();
      op.state := Crypto.Idle;
      ops := ops[op := Crypto.Wiped(ops[op]).(state := Crypto.Idle)];
    }

    /** An operation that has left its queue is aborted, called back and reclaimed. */
    method Flush(op: CryptOp)
      requires op in ops && Current()
      modifies this`totalJobs, this`failedJobs, this`heapFrees, this`ops, this`log, op
      ensures View() == Crypto.Flush(old(View()), op) && Current()
    {
      op.Abort(Crypto.QueueFlush);
      ops := ops[op := Crypto.Abort(ops[op], Crypto.QueueFlush)];
      log := log + [Crypto.Finished(op, false)];
      ReclaimQueueItem(op);
    }

    /** Purges the active job. */
    method PurgeCurrentJob() returns (n: nat)
      requires Valid()
      modifies this, ops.Keys
      ensures Valid() && View() == Crypto.PurgeCurrent(old(View()))
      ensures var op := old(currentJob);
        op != null ==>
          n == 1 && op in old(ops) && CryptoEffects.Aborted(old(View()), View(), op)
          && (if old(ops)[op].keep then op.state == Crypto.Idle && op.fault == Crypto.QueueFlush else op !in ops)
      ensures old(currentJob) == null ==> n == 0 && View() == old(View())
    {
      CryptoEffects.PurgeCurrentAborts(View());
      Crypto.PurgeCurrentKeeps(View());
      n := DropCurrent();
    }

    method DropCurrent() returns (n: nat)
      requires Current() && (currentJob != null ==> currentJob in ops)
      modifies this, ops.Keys
      ensures Current() && View() == Crypto.PurgeCurrent(old(View()))
      ensures n == if old(currentJob) == null then 0 else 1
    {
      n := 0;
      if currentJob != null {
        var op := currentJob;
        currentJob := null;
        Flush(op);
        n := 1;
      }
    }

    /** Purges all queued jobs; the active one stays.  The number of jobs is returned as a signed byte. */
    method PurgeQueuedWork() returns (n: int)
      requires Valid()
      modifies this, ops.Keys
      ensures Valid() && View() == Crypto.PurgeQueued(old(View())) && CryptoEffects.Purged(old(View()), View())
      ensures n == SignedByte(|old(workQueue)|) && (n == |old(workQueue)| <==> |old(workQueue)| < 128)
    {
      n := 0;
      CryptoEffects.PurgeAnswersAll(View());
      ghost var k: nat, all, jobs := 0, Crypto.PurgeQueued(View()), |workQueue|;
      while workQueue != []
        invariant Valid() && ops.Keys <= old(ops.Keys) && Crypto.PurgeQueued(View()) == all
        invariant k + |workQueue| == jobs && n == SignedByte(k)
        decreases |workQueue|
      {
        PurgeFirst();
        n := if n == 127 then -128 else n + 1;
        k := k + 1;
      }
    }

    method PurgeFirst()
      requires Valid() && workQueue != []
      modifies this, ops.Keys
      ensures Valid() && Crypto.PurgeQueued(View()) == Crypto.PurgeQueued(old(View()))
      ensures ops.Keys <= old(ops.Keys) && workQueue == old(workQueue)[1..]
    {
      Crypto.Unqueued(View());
      Crypto.FlushKeeps(View().(work := workQueue[1..]), workQueue[0].data);
      DropFirst();
    }

    method DropFirst()
      requires Current() && workQueue != [] && workQueue[0].data in ops
      modifies this, ops.Keys
      ensures Current() && View() == Crypto.Flush(old(View()).(work := old(workQueue)[1..]), old(workQueue)[0].data)
      ensures ops.Keys <= old(ops.Keys) && workQueue == old(workQueue)[1..]
    {
      var op := workQueue[0].data;
      workQueue := workQueue[1..];
      Flush(op);
    }

    /** Takes a job if none is active, and moves the active job one step on. */
    method AdvanceWorkQueue(o: Crypto.Outcome) returns (taken: nat)
      requires Current() && (workQueue != [] ==> workQueue[0].data in ops) && (currentJob != null ==> currentJob in ops)
      modifies this`workQueue, this`callbackQueue, this`currentJob, this`ops, ops.Keys
      ensures Current() && View() == Crypto.AdvanceCurrent(Crypto.TakeJob(old(View())), o)
      ensures ops.Keys == old(ops.Keys)
      ensures taken == if old(currentJob) == null && old(workQueue) != [] then 1 else 0
    {
      taken := 0;
      if currentJob == null && workQueue != [] {
        currentJob, workQueue := workQueue[0].data, workQueue[1..];
        taken := 1;
      }
      if currentJob != null {
        AdvanceJob(currentJob, o);
      }
    }

    method AdvanceJob(op: CryptOp, o: Crypto.Outcome)
      requires Current() && currentJob == op && op in ops
      modifies this`callbackQueue, this`currentJob, this`ops, op
      ensures Current() && View() == Crypto.AdvanceCurrent(old(View()), o)
      ensures ops.Keys == old(ops.Keys)
    {
      match op.state {
        case Undef =>
        case Complete => HandOver(op);
        case _ => AdvanceRunning(op, o);
      }
    }

    method AdvanceRunning(op: CryptOp, o: Crypto.Outcome)
      requires Current() && currentJob == op && op in ops && op.state != Crypto.Undef && op.state != Crypto.Complete
      modifies this`callbackQueue, this`currentJob, this`ops, op
      ensures Current() && View() == Crypto.AdvanceCurrent(old(View()), o)
      ensures ops.Keys == old(ops.Keys)
    {
      var code := StepJob(op, o);
      if code != Crypto.NoFault {
        HandOver(op);
      }
    }

    method StepJob(op: CryptOp, o: Crypto.Outcome) returns (code: Crypto.Fault)
      requires Current() && op in ops
      modifies this`ops, op
      ensures var (moved, c) := Crypto.Advance(Crypto.Begun(old(ops)[op]), o);
        code == c && Current() && ops == old(ops)[op := moved]
    {
      Begin(op);
      code := AdvanceOp(op, o);
    }

    method AdvanceOp(op: CryptOp, o: Crypto.Outcome) returns (code: Crypto.Fault)
      requires Current() && op in ops
      modifies this`ops, op
      ensures var (moved, c) := Crypto.Advance(old(ops)[op], o);
        code == c && Current() && ops == old(ops)[op := moved]
    {
      code := op.Advance(o);
      ops := ops[op := op.Value()];
    }

    method Begin(op: CryptOp)
      requires Current() && op in ops
      modifies this`ops, op
      ensures Current() && ops == old(ops)[op := Crypto.Begun(old(ops)[op])]
    {
      if op.state == Crypto.Idle {
        op.state := Crypto.Queued;
      }
      if op.state == Crypto.Queued {
        op.state := Crypto.Initiate;
      }
      ops := ops[op := Crypto.Begun(ops[op])];
    }

    method HandOver(op: CryptOp)
      modifies this`callbackQueue, this`currentJob
      ensures callbackQueue == Insert(old(callbackQueue), Entry(op, 0)) && currentJob == null
    {
      callbackQueue := Insert(callbackQueue, Entry(op, 0));
      currentJob := null;
    }

    /** Calls one finished operation back, and recycles or reclaims it. */
    method AdvanceCallbackQueue(answer: int) returns (n: nat)
      requires Current() && (callbackQueue != [] ==> callbackQueue[0].data in ops)
      modifies this, ops.Keys
      ensures Current() && View() == Crypto.AdvanceCallbacks(old(View()), answer)
      ensures n == if old(callbackQueue) == [] then 0 else 1
    {
      n := 0;
      if callbackQueue != [] {
        var op := callbackQueue[0].data;
        callbackQueue := callbackQueue[1..];
        if op.hasCallback && answer == Crypto.RECYCLE {
          op.MarkForRequeue();
          ops, log := ops[op := Crypto.MarkForRequeue(ops[op])], log + [Crypto.Finished(op, true)];
          var code := Take(op, 0);
        } else {
          log := log + [Crypto.Finished(op, false)];
          ReclaimQueueItem(op);
        }
        n := 1;
      }
    }

    /** One poll: a step of work, and then a callback. */
    method Poll(o: Crypto.Outcome, answer: int) returns (ghost worked: Crypto.Processor<CryptOp>)
      requires Valid() && Crypto.ValidOutcome(o)
      modifies this, ops.Keys
      ensures Valid() && View() == Crypto.Step(old(View()), Crypto.Poll(o, answer))
      ensures CryptoEffects.WorkTurn(old(View()), worked, o) && CryptoEffects.CallbackTurn(worked, View(), answer)
    {
      Crypto.PollParts(View(), o, answer);
      worked := Crypto.AdvanceWork(View(), o);
      CryptoEffects.AdvanceWorkMoves(View(), o);
      CryptoEffects.AdvanceCallbacksAnswers(worked, answer);
      Work(o, answer);
    }

    method Work(o: Crypto.Outcome, answer: int)
      requires Current() && Crypto.HeadsKnown(View())
        && Crypto.HeadsKnown(Crypto.AdvanceCurrent(Crypto.TakeJob(View()), o))
      modifies this, ops.Keys
      ensures Current()
      ensures View() == Crypto.AdvanceCallbacks(Crypto.AdvanceCurrent(Crypto.TakeJob(old(View())), o), answer)
    {
      var taken := AdvanceWorkQueue(o);
      var n := AdvanceCallbackQueue(answer);
    }

    /** Lets a new operation be submitted. */
    ghost method Register(op: CryptOp)
      requires Valid() && op !in seen && op.state == Crypto.Idle
      modifies this`ops, this`seen
      ensures Valid() && View() == Crypto.Step(old(View()), Crypto.Create(op, op.Value()))
    {
      Crypto.CreateKeeps(View(), op, op.Value());
      ops, seen := ops[op := op.Value()], seen + {op};
    }
  }
}
