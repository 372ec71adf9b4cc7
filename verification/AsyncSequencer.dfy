/** The sequencer itself: five masks that requests and polls update in place. */
module AsyncSequencers {
  import opened Dependencies
  import opened Steps
  import opened Sequencing

  class AsyncSequencer {
    const steps: seq<StepDef>
    var requested: Mask
    var runnable: Mask
    var running: Mask
    var complete: Mask
    var passed: Mask

    function Snapshot(): State
      reads this
    {
      State(requested, runnable, running, complete, passed)
    }

    constructor (steps: seq<StepDef>)
      ensures this.steps == steps && Snapshot() == RESET
    {
      this.steps := steps;
      requested, runnable, running, complete, passed := {}, {}, {}, {}, {};
    }

    method ResetSequencer()
      modifies this
      ensures requested == runnable == running == complete == passed == {} && Snapshot() == RESET
    {
      runnable, running, requested, complete, passed := {}, {}, {}, {}, {};
    }

    /** Recursion with a depth limit: the argument's steps and, as far as the limit allows, all
        that they depend on. */
    method GetDependencyMask(req: Mask, limiter: nat) returns (ret: Mask)
      ensures ret == Sweep(steps, req, limiter, |steps|)
      decreases DepthLeft(steps, limiter)
    {
      ret := {};
      for i := 0 to |steps|
        invariant ret == Sweep(steps, req, limiter, i)
      {
        var step := steps[i];
        if step.flag in req {
          ret := ret + {step.flag};
          if step.deps != {} {
            var uncovered := step.deps - ret;
            if uncovered != {} {
              if Cap(steps) > limiter {
                var found := GetDependencyMask(uncovered, limiter + 1);
                ret := ret + found;
              }
            }
          }
        }
      }
    }

    method RequestSteps(mask: Mask)
      modifies this`requested
      ensures requested == old(requested) + DependencyMask(steps, mask)
      ensures Snapshot() == Request(steps, old(Snapshot()), mask)
    {
      var full := GetDependencyMask(mask, 0);
      requested := requested + full;
    }

    method MarkDispatched(flag: nat)
      modifies this`complete, this`passed, this`running
      ensures Snapshot() == MarkedDispatched(old(Snapshot()), flag)
    {
      complete := complete - {flag};
      passed := passed - {flag};
      running := running + {flag};
    }

    method MarkComplete(flag: nat, pass: bool)
      modifies this`complete, this`passed, this`running
      ensures Snapshot() == MarkedComplete(old(Snapshot()), flag, pass)
    {
      running := running - {flag};
      complete := complete + {flag};
      passed := if pass then passed + {flag} else passed - {flag};
    }

    method CheckDependencies()
      requires WellFormed(steps)
      modifies this`runnable
      ensures runnable == old(runnable) +
        set i | 0 <= i < |steps| && steps[i].flag in requested && steps[i].deps <= passed :: steps[i].flag
      ensures Snapshot() == Check(steps, old(Snapshot()))
    {
      CheckAdds(steps, Snapshot());
      var newRunnable := {};
      for i := 0 to |steps|
        invariant runnable == old(runnable)
        invariant newRunnable <= Flags(steps)
        invariant forall f :: f in newRunnable ==> f in requested && DepsOf(steps, f) <= passed
        invariant forall j :: 0 <= j < i && steps[j].flag in requested && steps[j].deps <= passed ==>
          steps[j].flag in newRunnable + runnable
      {
        DepsOfStep(steps, i);
        var step := steps[i];
        if step.flag !in runnable {
          if step.deps <= passed {
            if step.flag in requested {
              newRunnable := newRunnable + {step.flag};
            }
          }
        }
      }
      if newRunnable != {} {
        runnable := runnable + newRunnable;
      }
      forall f | f in Flags(steps) && f in requested && DepsOf(steps, f) <= passed ensures f in runnable {
        var j := FlagHasStep(steps, f);
        DepsOfStep(steps, j);
      }
    }

    /** Calls the dispatch function of each step in the mask, once and in list order. */
    method DispatchSteps(mask: Mask, answers: Answers) returns (ghost calls: seq<nat>)
      requires WellFormed(steps)
      modifies this`complete, this`passed, this`running
      ensures Snapshot() == Dispatch(old(Snapshot()), mask * Flags(steps), answers)
      ensures forall f :: f in mask * Flags(steps) && answers(f) == 1 ==> f in running - complete - passed
      ensures forall f :: f in mask * Flags(steps) && answers(f) != 0 && answers(f) != 1 ==>
        f in complete - running - passed
      ensures forall f :: f !in mask * Flags(steps) || answers(f) == 0 ==> Untouched(old(Snapshot()), Snapshot(), f)
      ensures Calls(steps, mask, calls)
    {
      calls := [];
      for i := 0 to |steps|
        invariant Snapshot() == Dispatch(old(Snapshot()), mask * Flags(steps[..i]), answers)
        invariant Calls(steps[..i], mask, calls)
      {
        var step := steps[i];
        NotYetSeen(steps, i, mask);
        if step.flag in mask {
          calls := calls + [step.flag];
          var answer := answers(step.flag);
          DispatchNext(old(Snapshot()), mask * Flags(steps[..i]), step.flag, answers);
          match answer {
            case 1 => MarkDispatched(step.flag);
            case 0 =>
            case _ => MarkComplete(step.flag, false);
          }
        }
      }
      assert steps[..|steps|] == steps;
    }

    /** Calls the poll function of each step in the mask, once and in list order. */
    method PollSteps(mask: Mask, answers: Answers) returns (ghost calls: seq<nat>)
      requires WellFormed(steps)
      modifies this`complete, this`passed, this`running
      ensures Snapshot() == Finish(old(Snapshot()), mask * Flags(steps), answers)
      ensures forall f :: f in mask * Flags(steps) && answers(f) == 1 ==> f in passed * complete - running
      ensures forall f :: f in mask * Flags(steps) && answers(f) != 0 && answers(f) != 1 ==>
        f in complete - running - passed
      ensures forall f :: f !in mask * Flags(steps) || answers(f) == 0 ==> Untouched(old(Snapshot()), Snapshot(), f)
      ensures Calls(steps, mask, calls)
    {
      calls := [];
      for i := 0 to |steps|
        invariant Snapshot() == Finish(old(Snapshot()), mask * Flags(steps[..i]), answers)
        invariant Calls(steps[..i], mask, calls)
      {
        var step := steps[i];
        NotYetSeen(steps, i, mask);
        if step.flag in mask {
          calls := calls + [step.flag];
          var answer := answers(step.flag);
          FinishNext(old(Snapshot()), mask * Flags(steps[..i]), step.flag, answers);
          match answer {
            case 1 => MarkComplete(step.flag, true);
            case 0 =>
            case _ => MarkComplete(step.flag, false);
          }
        }
      }
      assert steps[..|steps|] == steps;
    }

    /** One pass over the steps; the answers stand for what the callbacks return.  Returns the
        number of state transitions. */
    method PollOnce(dispatch: Answers, poll: Answers)
      returns (ret: nat, ghost dispatched: seq<nat>, ghost polled: seq<nat>)
      requires WellFormed(steps)
      modifies this`runnable, this`complete, this`passed, this`running
      ensures Snapshot() == Poll(steps, old(Snapshot()), dispatch, poll)
      ensures runnable == old(runnable) +
        set i | 0 <= i < |steps| && steps[i].flag in requested && steps[i].deps <= old(passed) :: steps[i].flag
      ensures Invariant(steps, old(Snapshot())) ==> Polls(old(Snapshot()), Snapshot(), dispatch, poll)
      ensures Invariant(steps, old(Snapshot())) ==>
        ret == |Differ(old(running), running)| + |Differ(old(complete), complete)|
               + |Differ(old(runnable) - old(complete) - old(running), runnable - complete - running)| <= 96
      ensures Calls(steps, old(runnable) - old(complete) - old(running), dispatched)
      ensures Calls(steps, Polled(steps, old(Snapshot()), dispatch), polled)
    {
      var prePoll, preComp := running, complete;
      var preDispatch := runnable - preComp - prePoll;
      CheckDependencies();
      dispatched := DispatchSteps(preDispatch, dispatch);
      polled := PollSteps(running, poll);
      var postPoll, postComp := running, complete;
      var postDispatch := runnable - postComp - postPoll;
      ret := CountBits((prePoll - postPoll) + (postPoll - prePoll),
                       (preComp - postComp) + (postComp - preComp),
                       (preDispatch - postDispatch) + (postDispatch - preDispatch));
      if Invariant(steps, old(Snapshot())) {
        PollKeepsInvariant(steps, old(Snapshot()), dispatch, poll);
        PollOutcome(steps, old(Snapshot()), dispatch, poll);
        AllBitsCounted(steps, old(Snapshot()), Snapshot());
      }
    }

    /** The bit-counting loop at the end of poll. */
    method CountBits(a: Mask, b: Mask, c: Mask) returns (ret: nat)
      ensures ret == |LowPart(a, 32)| + |LowPart(b, 32)| + |LowPart(c, 32)|
    {
      ret := 0;
      for i := 0 to 32
        invariant ret == |LowPart(a, i)| + |LowPart(b, i)| + |LowPart(c, i)|
      {
        NextBit(a, i);
        NextBit(b, i);
        NextBit(c, i);
        ret := ret + (if i in a then 1 else 0);
        ret := ret + (if i in b then 1 else 0);
        ret := ret + (if i in c then 1 else 0);
      }
    }
  }

  /** The marks of step f are the same in both. */
  ghost predicate Untouched(s: State, t: State, f: nat) {
    (f in s.running <==> f in t.running) && (f in s.complete <==> f in t.complete) && (f in s.passed <==> f in t.passed)
  }

  ghost function LowPart(m: Mask, n: nat): Mask {
    set f | f in m && f < n
  }

  lemma NextBit(m: Mask, n: nat)
    ensures |LowPart(m, n + 1)| == |LowPart(m, n)| + if n in m then 1 else 0
    ensures |LowPart(m, 0)| == 0
  {
    assert LowPart(m, 0) == {};
    assert LowPart(m, n + 1) == LowPart(m, n) + if n in m then {n} else {};
  }

  lemma LowBits(steps: seq<StepDef>, m: Mask)
    requires WellFormed(steps) && m <= Flags(steps)
    ensures LowPart(m, 32) == m && |m| <= 32
  {
    forall f | f in m ensures f < 32 {
      var _ := FlagHasStep(steps, f);
    }
    StepCount(steps);
    SubsetSize(m, Flags(steps));
  }

  /** Nothing escapes the 32-bit count, and the result fits the signed byte that returns it. */
  lemma AllBitsCounted(steps: seq<StepDef>, s: State, t: State)
    requires WellFormed(steps) && Invariant(steps, s) && Invariant(steps, t)
    ensures Changes(s, t) == |LowPart(Differ(s.running, t.running), 32)| + |LowPart(Differ(s.complete, t.complete), 32)|
                             + |LowPart(Differ(Dispatchable(s), Dispatchable(t)), 32)| <= 96
  {
    LowBits(steps, Differ(s.running, t.running));
    LowBits(steps, Differ(s.complete, t.complete));
    LowBits(steps, Differ(Dispatchable(s), Dispatchable(t)));
  }

  /** calls lists the flags of the steps in the mask, each once and in the order of the list. */
  ghost predicate Calls(steps: seq<StepDef>, mask: Mask, calls: seq<nat>) {
    if steps == [] then calls == []
    else
      var rest, step := steps[..|steps| - 1], steps[|steps| - 1];
      if step.flag in mask
      then calls != [] && calls[|calls| - 1] == step.flag && Calls(rest, mask, calls[..|calls| - 1])
      else Calls(rest, mask, calls)
  }

  lemma NotYetSeen(steps: seq<StepDef>, i: nat, mask: Mask)
    requires WellFormed(steps) && i < |steps|
    ensures var f, seen := steps[i].flag, Flags(steps[..i]);
            && f !in seen && steps[..i + 1][..i] == steps[..i]
            && mask * Flags(steps[..i + 1]) == if f in mask then mask * seen + {f} else mask * seen
  {
    assert steps[..i + 1][..i] == steps[..i];
    if steps[i].flag in Flags(steps[..i]) {
      var j := FlagHasStep(steps[..i], steps[i].flag);
    }
  }
}
