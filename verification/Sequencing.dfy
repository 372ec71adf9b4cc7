/** What the calls of the sequencer do to its five masks, and what every run keeps. */
module Sequencing {
  import opened Dependencies
  import opened Steps

  datatype State = State(requested: Mask, runnable: Mask, running: Mask, complete: Mask, passed: Mask)

  /** What each step's callback answers in one poll: 1 is success, 0 is retry, all else failure. */
  type Answers = nat -> int

  const RESET := State({}, {}, {}, {}, {})

  ghost function Yes(m: Mask, a: Answers): Mask {
    set f | f in m && a(f) == 1
  }

  ghost function No(m: Mask, a: Answers): Mask {
    set f | f in m && a(f) != 1 && a(f) != 0
  }

  /** Runnable steps that neither run nor are complete. */
  function Dispatchable(s: State): Mask {
    s.runnable - s.complete - s.running
  }

  ghost function Check(steps: seq<StepDef>, s: State): State {
    s.(runnable := s.runnable + set f | f in Flags(steps) && f in s.requested && DepsOf(steps, f) <= s.passed)
  }

  ghost function Dispatch(s: State, m: Mask, a: Answers): State {
    var yes, no := Yes(m, a), No(m, a);
    s.(running := s.running + yes - no, complete := s.complete - yes + no, passed := s.passed - yes - no)
  }

  ghost function Finish(s: State, m: Mask, a: Answers): State {
    var yes, no := Yes(m, a), No(m, a);
    s.(running := s.running - yes - no, complete := s.complete + yes + no, passed := s.passed + yes - no)
  }

  function MarkedDispatched(s: State, f: nat): State {
    s.(complete := s.complete - {f}, passed := s.passed - {f}, running := s.running + {f})
  }

  function MarkedComplete(s: State, f: nat, pass: bool): State {
    s.(running := s.running - {f}, complete := s.complete + {f},
       passed := if pass then s.passed + {f} else s.passed - {f})
  }

  /** The phases step by step. */
  lemma DispatchNext(s: State, m: Mask, f: nat, a: Answers)
    requires f !in m
    ensures var t := Dispatch(s, m, a);
            Dispatch(s, m + {f}, a) ==
              match a(f) { case 1 => MarkedDispatched(t, f) case 0 => t case _ => MarkedComplete(t, f, false) }
  {
    AnswersNext(m, f, a);
  }

  lemma FinishNext(s: State, m: Mask, f: nat, a: Answers)
    requires f !in m
    ensures var t := Finish(s, m, a);
            Finish(s, m + {f}, a) ==
              match a(f) { case 1 => MarkedComplete(t, f, true) case 0 => t case _ => MarkedComplete(t, f, false) }
  {
    AnswersNext(m, f, a);
  }

  lemma AnswersNext(m: Mask, f: nat, a: Answers)
    ensures Yes(m + {f}, a) == Yes(m, a) + if a(f) == 1 then {f} else {}
    ensures No(m + {f}, a) == No(m, a) + if a(f) == 1 || a(f) == 0 then {} else {f}
  {
  }

  /** When the two marks keep what every reachable state has: the step must be runnable, and a step that is
      not marked as passed must not be one that a runnable step depends on. */
  lemma MarksKeepExactly(steps: seq<StepDef>, s: State, f: nat)
    requires Invariant(steps, s)
    ensures Invariant(steps, MarkedComplete(s, f, true)) <==> f in s.runnable
    ensures Invariant(steps, MarkedComplete(s, f, false)) <==> f in s.runnable && !Needed(steps, s, f)
    ensures Invariant(steps, MarkedDispatched(s, f)) <==> f in s.runnable && !Needed(steps, s, f)
  {
    assert Needed(steps, s, f) ==> f in s.passed;
  }

  /** Does a runnable step depend on f? */
  ghost predicate Needed(steps: seq<StepDef>, s: State, f: nat) {
    exists g :: g in s.runnable && f in DepsOf(steps, g)
  }

  /** One poll: the masks of the dispatch phase are taken before the dependencies are checked, so a
      step that becomes runnable is dispatched on a later poll; a step that is dispatched is polled
      at once. */
  ghost function Poll(steps: seq<StepDef>, s: State, dispatch: Answers, poll: Answers): State {
    var t := Dispatch(Check(steps, s), Dispatchable(s) * Flags(steps), dispatch);
    Finish(t, t.running * Flags(steps), poll)
  }

  ghost function Request(steps: seq<StepDef>, s: State, m: Mask): State {
    s.(requested := s.requested + DependencyMask(steps, m))
  }

  ghost function Differ(a: Mask, b: Mask): (m: Mask)
    ensures forall f :: f in m <==> (f in a) != (f in b)
  {
    (a - b) + (b - a)
  }

  /** The number of state changes that poll reports. */
  ghost function Changes(s: State, t: State): nat {
    |Differ(s.running, t.running)| + |Differ(s.complete, t.complete)| + |Differ(Dispatchable(s), Dispatchable(t))|
  }

  function FailedSteps(s: State, incRunning: bool): Mask {
    (if incRunning then s.runnable else s.complete) - s.passed
  }

  predicate Fulfilled(s: State) {
    s.requested <= s.passed * s.complete
  }

  predicate Completed(s: State) {
    s.requested <= s.complete
  }

  // ----- runs

  datatype Action = RequestSteps(mask: Mask) | PollOnce(dispatch: Answers, poll: Answers)

  ghost function Act(steps: seq<StepDef>, s: State, a: Action): State {
    match a
    case RequestSteps(m) => Request(steps, s, m)
    case PollOnce(d, p) => Poll(steps, s, d, p)
  }

  ghost function Run(steps: seq<StepDef>, s: State, run: seq<Action>): State {
    if run == [] then s else Act(steps, Run(steps, s, run[..|run| - 1]), run[|run| - 1])
  }

  /** What holds in every state that is reached from reset by requests and polls. */
  ghost predicate Invariant(steps: seq<StepDef>, s: State) {
    && s.passed <= s.complete
    && s.running !! s.complete
    && s.running + s.complete <= s.runnable <= s.requested <= Flags(steps)
    && forall f :: f in s.runnable ==> DepsOf(steps, f) <= s.passed
  }

  lemma PollKeepsInvariant(steps: seq<StepDef>, s: State, d: Answers, p: Answers)
    requires Invariant(steps, s)
    ensures var t := Poll(steps, s, d, p);
            && Invariant(steps, t)
            && t.requested == s.requested && s.runnable <= t.runnable
            && s.complete <= t.complete && s.passed <= t.passed
  {
  }

  lemma RequestKeepsInvariant(steps: seq<StepDef>, s: State, m: Mask)
    requires WellFormed(steps) && Invariant(steps, s)
    ensures Invariant(steps, Request(steps, s, m))
  {
    var all := GraphOf(steps).Keys;
    SweepIsSound(steps, m, 0, |steps|, all);
  }

  lemma {:induction false} RunKeepsInvariant(steps: seq<StepDef>, s: State, run: seq<Action>)
    requires WellFormed(steps) && Invariant(steps, s)
    ensures Invariant(steps, Run(steps, s, run))
    ensures s.complete <= Run(steps, s, run).complete && s.passed <= Run(steps, s, run).passed
  {
    if run != [] {
      RunKeepsInvariant(steps, s, run[..|run| - 1]);
      var t, a := Run(steps, s, run[..|run| - 1]), run[|run| - 1];
      match a {
        case RequestSteps(m) => RequestKeepsInvariant(steps, t, m);
        case PollOnce(d, p) => PollKeepsInvariant(steps, t, d, p);
      }
    }
  }

  /** What the check adds, step by step of the list. */
  lemma CheckAdds(steps: seq<StepDef>, s: State)
    requires WellFormed(steps)
    ensures Check(steps, s).runnable == s.runnable +
      set i | 0 <= i < |steps| && steps[i].flag in s.requested && steps[i].deps <= s.passed :: steps[i].flag
  {
    forall f | f in Flags(steps)
      ensures exists i :: 0 <= i < |steps| && steps[i].flag == f && DepsOf(steps, f) == steps[i].deps
    {
      var i := FlagHasStep(steps, f);
      DepsOfStep(steps, i);
    }
    forall i | 0 <= i < |steps| ensures DepsOf(steps, steps[i].flag) == steps[i].deps {
      DepsOfStep(steps, i);
    }
  }

  /** From s to t all runnable steps that neither ran nor were complete have been dispatched, and then those that
      ran or were dispatched with success have been polled. */
  ghost predicate Polls(s: State, t: State, dispatch: Answers, poll: Answers) {
    var calls := s.runnable - s.complete - s.running;
    var ran := s.running + set f | f in calls && dispatch(f) == 1;
    && t.requested == s.requested
    && t.running == (set f | f in ran && poll(f) == 0)
    && t.passed == s.passed + (set f | f in ran && poll(f) == 1)
    && t.complete == s.complete + (set f | f in calls && dispatch(f) != 0 && dispatch(f) != 1)
                     + (set f | f in ran && poll(f) != 0)
  }

  /** What one poll leaves of a reachable state, whatever the callbacks answer. */
  lemma PollOutcome(steps: seq<StepDef>, s: State, d: Answers, p: Answers)
    requires WellFormed(steps) && Invariant(steps, s)
    ensures Polls(s, Poll(steps, s, d, p), d, p)
    ensures Polled(steps, s, d) == s.running + set f | f in s.runnable - s.complete - s.running && d(f) == 1
    ensures Poll(steps, s, d, p).runnable == s.runnable +
      set i | 0 <= i < |steps| && steps[i].flag in s.requested && steps[i].deps <= s.passed :: steps[i].flag
  {
    CheckAdds(steps, s);
    var calls := s.runnable - s.complete - s.running;
    assert calls * Flags(steps) == calls;
    var ran := s.running + set f | f in calls && d(f) == 1;
    assert ran * Flags(steps) == ran;
    assert Dispatch(Check(steps, s), calls, d).running == ran;
  }

  /** In every reachable state and whatever the callbacks answer, a requested step whose dependencies have
      passed becomes runnable in the next poll, and is dispatched in the one after it; what the other steps do,
      run, wait or fail, does not hold it up. */
  lemma ReadyIsDispatched(steps: seq<StepDef>, run: seq<Action>, i: nat, d: Answers, p: Answers)
    requires WellFormed(steps) && i < |steps|
    requires var s := Run(steps, RESET, run);
      steps[i].flag in s.requested && steps[i].deps <= s.passed && steps[i].flag !in s.runnable
    ensures var t := Run(steps, RESET, run + [PollOnce(d, p)]);
      steps[i].flag in t.runnable && steps[i].flag in Dispatched(steps, t)
  {
    var s := Run(steps, RESET, run);
    RunKeepsInvariant(steps, RESET, run);
    assert (run + [PollOnce(d, p)])[..|run|] == run;
    PollOutcome(steps, s, d, p);
    var t := Poll(steps, s, d, p);
    assert steps[i].flag in t.runnable;
    assert steps[i].flag !in t.complete && steps[i].flag !in t.running;
  }

  /** The callbacks of one poll: which steps are dispatched and which are polled. */
  ghost function Dispatched(steps: seq<StepDef>, s: State): Mask {
    Dispatchable(s) * Flags(steps)
  }

  ghost function Polled(steps: seq<StepDef>, s: State, d: Answers): Mask {
    Dispatch(Check(steps, s), Dispatched(steps, s), d).running
  }

  /** Over every run from reset, a step is dispatched only when everything that it depends on, down
      every chain, has passed, and when it is neither running nor complete; and it is polled only
      when it was running or has just been dispatched successfully. */
  lemma CallbacksAreSafe(steps: seq<StepDef>, run: seq<Action>, d: Answers)
    requires WellFormed(steps)
    ensures var s := Run(steps, RESET, run);
            forall c: seq<nat> :: Chain(GraphOf(steps), c) && c != [] && c[0] in Dispatched(steps, s) ==>
              (forall j :: 0 < j < |c| ==> c[j] in s.passed) && c[0] !in s.running + s.complete
    ensures var s := Run(steps, RESET, run);
            Polled(steps, s, d) == s.running + Yes(Dispatched(steps, s), d)
  {
    var s, g := Run(steps, RESET, run), GraphOf(steps);
    RunKeepsInvariant(steps, RESET, run);
    assert ClosedUnder(g, s.passed);
    forall c: seq<nat> | Chain(g, c) && c != [] && c[0] in Dispatched(steps, s)
      ensures (forall j :: 0 < j < |c| ==> c[j] in s.passed) && c[0] !in s.running + s.complete
    {
      if |c| > 1 {
        assert c[1] in DepsOf(steps, c[0]);
        ClosedContainsChains(g, s.passed, c[1..]);
        assert forall j :: 0 < j < |c| ==> c[j] == c[1..][j - 1];
      }
    }
  }

  // ----- what poll reports

  lemma DifferEmpty(a: Mask, b: Mask)
    ensures |Differ(a, b)| == 0 <==> a == b
  {
    if Differ(a, b) == {} {
      forall x ensures x in a <==> x in b {
        assert x !in Differ(a, b);
      }
    }
  }

  /** In reachable states poll reports 0 exactly when it changed nothing at all. */
  lemma ZeroMeansUnchanged(steps: seq<StepDef>, s: State, d: Answers, p: Answers)
    requires Invariant(steps, s)
    ensures Changes(s, Poll(steps, s, d, p)) == 0 <==> Poll(steps, s, d, p) == s
  {
    var t := Poll(steps, s, d, p);
    PollKeepsInvariant(steps, s, d, p);
    DifferEmpty(s.running, t.running);
    DifferEmpty(s.complete, t.complete);
    DifferEmpty(Dispatchable(s), Dispatchable(t));
    if s.running == t.running && s.complete == t.complete && Dispatchable(s) == Dispatchable(t) {
      SameRunnable(s, t);
      PassedFollowsComplete(steps, s, d, p);
    }
  }

  lemma SameRunnable(s: State, t: State)
    requires s.running == t.running && s.complete == t.complete && Dispatchable(s) == Dispatchable(t)
    requires s.running + s.complete <= s.runnable <= t.runnable
    ensures s.runnable == t.runnable
  {
    forall f | f in t.runnable ensures f in s.runnable {
      assert f in Dispatchable(t) || f in t.running + t.complete;
    }
  }

  lemma PassedFollowsComplete(steps: seq<StepDef>, s: State, d: Answers, p: Answers)
    requires Invariant(steps, s) && s.complete == Poll(steps, s, d, p).complete
    ensures s.passed == Poll(steps, s, d, p).passed
  {
  }

  /** Each step goes through three stages: runnable, running, complete. */
  ghost function Progress(s: State): nat {
    |s.runnable| + |s.running + s.complete| + |s.complete|
  }

  lemma StagesGrow(s: State, t: State)
    requires s.running !! s.complete && t.running !! t.complete
    requires s.runnable <= t.runnable && s.complete <= t.complete
    requires s.running + s.complete <= t.running + t.complete
    ensures Progress(s) <= Progress(t)
    ensures (s.runnable, s.running, s.complete) != (t.runnable, t.running, t.complete) ==> Progress(s) < Progress(t)
  {
    var a, b := s.running + s.complete, t.running + t.complete;
    SubsetSize(s.runnable, t.runnable);
    SubsetSize(a, b);
    SubsetSize(s.complete, t.complete);
    if s.runnable != t.runnable {
      SizeGrows(s.runnable, t.runnable);
    } else if s.complete != t.complete {
      SizeGrows(s.complete, t.complete);
    } else if a != b {
      SizeGrows(a, b);
    } else {
      assert s.running == a - s.complete && t.running == b - t.complete;
    }
  }

  lemma PollMakesProgress(steps: seq<StepDef>, s: State, d: Answers, p: Answers)
    requires Invariant(steps, s)
    ensures var t := Poll(steps, s, d, p);
            Progress(s) <= Progress(t) && (Changes(s, t) != 0 ==> Progress(s) < Progress(t))
  {
    var t := Poll(steps, s, d, p);
    PollKeepsInvariant(steps, s, d, p);
    StartedStaysStarted(steps, s, d, p);
    StagesGrow(s, t);
    ZeroMeansUnchanged(steps, s, d, p);
    if s.complete == t.complete {
      PassedFollowsComplete(steps, s, d, p);
    }
  }

  lemma StartedStaysStarted(steps: seq<StepDef>, s: State, d: Answers, p: Answers)
    requires Invariant(steps, s)
    ensures s.running + s.complete <= Poll(steps, s, d, p).running + Poll(steps, s, d, p).complete
  {
  }

  /** How many of the polls of a run reported a change. */
  ghost function BusyPolls(steps: seq<StepDef>, s: State, run: seq<Action>): nat {
    if run == [] then 0
    else
      var rest, a := run[..|run| - 1], run[|run| - 1];
      var t := Run(steps, s, rest);
      BusyPolls(steps, s, rest) + if a.PollOnce? && Changes(t, Act(steps, t, a)) != 0 then 1 else 0
  }

  lemma {:induction false} BusyPollsMakeProgress(steps: seq<StepDef>, run: seq<Action>)
    requires WellFormed(steps)
    ensures BusyPolls(steps, RESET, run) <= Progress(Run(steps, RESET, run))
  {
    if run != [] {
      var rest, a := run[..|run| - 1], run[|run| - 1];
      var t := Run(steps, RESET, rest);
      BusyPollsMakeProgress(steps, rest);
      RunKeepsInvariant(steps, RESET, rest);
      if a.PollOnce? {
        PollMakesProgress(steps, t, a.dispatch, a.poll);
      }
    }
  }

  /** However long a run is and whatever it requests, at most three polls per step report a change. */
  lemma BusyPollsAreBounded(steps: seq<StepDef>, run: seq<Action>)
    requires WellFormed(steps)
    ensures BusyPolls(steps, RESET, run) <= 3 * |steps|
  {
    var s := Run(steps, RESET, run);
    BusyPollsMakeProgress(steps, run);
    RunKeepsInvariant(steps, RESET, run);
    StepCount(steps);
    SubsetSize(s.runnable, Flags(steps));
    SubsetSize(s.running + s.complete, Flags(steps));
    SubsetSize(s.complete, Flags(steps));
  }

  // ----- progress

  ghost predicate AllOnes(a: Answers) {
    forall f :: a(f) == 1
  }

  lemma {:induction false} RequestedIsClosed(steps: seq<StepDef>, run: seq<Action>)
    requires WellFormed(steps) && Acyclic(GraphOf(steps))
    ensures ClosedUnder(GraphOf(steps), Run(steps, RESET, run).requested)
  {
    if run != [] {
      var a := run[|run| - 1];
      RequestedIsClosed(steps, run[..|run| - 1]);
      if a.RequestSteps? {
        DependencyMaskIsClosure(steps, a.mask);
      }
    }
  }

  /** While a request is incomplete and nothing has failed, a poll that is answered with success
      changes the state: the sequencer cannot get stuck on an acyclic list. */
  lemma NeverStuck(steps: seq<StepDef>, run: seq<Action>, d: Answers, p: Answers)
    requires WellFormed(steps) && Acyclic(GraphOf(steps)) && AllListed(steps) && AllOnes(d) && AllOnes(p)
    requires var s := Run(steps, RESET, run); FailedSteps(s, false) == {} && !Completed(s)
    ensures var s := Run(steps, RESET, run); Changes(s, Poll(steps, s, d, p)) != 0
  {
    RunKeepsInvariant(steps, RESET, run);
    RequestedIsClosed(steps, run);
    NeverStuckAt(steps, Run(steps, RESET, run), d, p);
  }

  lemma NeverStuckAt(steps: seq<StepDef>, s: State, d: Answers, p: Answers)
    requires WellFormed(steps) && Acyclic(GraphOf(steps)) && AllListed(steps) && AllOnes(d) && AllOnes(p)
    requires Invariant(steps, s) && ClosedUnder(GraphOf(steps), s.requested)
    requires FailedSteps(s, false) == {} && !Completed(s)
    ensures Changes(s, Poll(steps, s, d, p)) != 0
  {
    var g := GraphOf(steps);
    var waiting := s.requested - s.complete;
    var x :| x in s.requested && x !in s.complete;
    assert x in waiting && HasSource(g, waiting);
    var f :| f in waiting && g[f] !! waiting;
    DepsAreListed(steps, f);
    forall e | e in DepsOf(steps, f) ensures e in s.passed {
      assert e !in waiting && e in s.requested;
      assert e !in FailedSteps(s, false);
    }
    NextStepMoves(steps, s, f, d, p);
    ZeroMeansUnchanged(steps, s, d, p);
  }

  lemma NextStepMoves(steps: seq<StepDef>, s: State, f: nat, d: Answers, p: Answers)
    requires Invariant(steps, s) && AllOnes(d) && AllOnes(p)
    requires f in s.requested && f !in s.complete && DepsOf(steps, f) <= s.passed
    ensures Poll(steps, s, d, p) != s
  {
    var t := Poll(steps, s, d, p);
    assert f in t.runnable;
    assert f in s.runnable ==> f in t.complete;
  }

  lemma {:induction false} DepsAreListed(steps: seq<StepDef>, f: nat)
    requires WellFormed(steps) && AllListed(steps) && f in Flags(steps)
    ensures GraphOf(steps)[f] == DepsOf(steps, f)
  {
    var i := FlagHasStep(steps, f);
    DepsOfStep(steps, i);
  }

  /** A poll whose callbacks all answer 1. */
  ghost function Succeed(steps: seq<StepDef>, s: State): State {
    var done := (s.running + Dispatchable(s)) * Flags(steps);
    Check(steps, s).(running := s.running - Flags(steps), complete := s.complete + done, passed := s.passed + done)
  }

  lemma AllOnesSucceed(steps: seq<StepDef>, s: State, d: Answers, p: Answers)
    requires AllOnes(d) && AllOnes(p) && Invariant(steps, s)
    ensures Poll(steps, s, d, p) == Succeed(steps, s)
  {
    var m := Dispatchable(s) * Flags(steps);
    assert Yes(m, d) == m && No(m, d) == {};
    var t := Dispatch(Check(steps, s), m, d);
    var n := t.running * Flags(steps);
    assert n == (s.running + m) * Flags(steps);
    assert Yes(n, p) == n && No(n, p) == {};
  }

  /** Polls whose callbacks all answer 1. */
  ghost predicate Successful(run: seq<Action>) {
    forall i :: 0 <= i < |run| ==> run[i].PollOnce? && AllOnes(run[i].dispatch) && AllOnes(run[i].poll)
  }

  /** The steps of r that have no chain of more than k steps below them. */
  ghost function Done(steps: seq<StepDef>, r: Mask, k: nat): Mask {
    Level(GraphOf(steps), k) * r
  }

  function Fresh(r: Mask): State {
    State(r, {}, {}, {}, {})
  }

  /** Level k has passed and nothing else has been looked at. */
  ghost function Settled(steps: seq<StepDef>, r: Mask, k: nat): State {
    State(r, Done(steps, r, k), {}, Done(steps, r, k), Done(steps, r, k))
  }

  /** Level k has passed and the next level is runnable. */
  ghost function Opened(steps: seq<StepDef>, r: Mask, k: nat): State {
    State(r, Done(steps, r, k + 1), {}, Done(steps, r, k), Done(steps, r, k))
  }

  /** What n successful polls leave: after 2k of them exactly level k has passed, and one more makes the next
      level runnable and changes nothing else. */
  ghost function AfterPolls(steps: seq<StepDef>, r: Mask, n: nat): State {
    if n % 2 == 1 then Opened(steps, r, n / 2) else Settled(steps, r, n / 2)
  }

  lemma PollAdvances(steps: seq<StepDef>, r: Mask, n: nat)
    requires WellFormed(steps) && AllListed(steps) && r <= Flags(steps) && ClosedUnder(GraphOf(steps), r) && n > 0
    ensures Succeed(steps, AfterPolls(steps, r, n - 1)) == AfterPolls(steps, r, n)
  {
    if n % 2 == 1 {
      assert (n - 1) % 2 == 0 && (n - 1) / 2 == n / 2;
      LevelOpens(steps, r, n / 2);
    } else {
      assert (n - 1) % 2 == 1 && (n - 1) / 2 == n / 2 - 1;
      LevelSettles(steps, r, n / 2);
    }
  }

  lemma {:induction false} TwoPollsPerLevel(steps: seq<StepDef>, r: Mask, run: seq<Action>)
    requires WellFormed(steps) && AllListed(steps) && r <= Flags(steps) && ClosedUnder(GraphOf(steps), r)
    requires Successful(run)
    ensures Run(steps, Fresh(r), run) == AfterPolls(steps, r, |run|)
    decreases |run|
  {
    if run == [] {
      assert Done(steps, r, 0) == {};
    } else {
      var rest, a := run[..|run| - 1], run[|run| - 1];
      TwoPollsPerLevel(steps, r, rest);
      RunKeepsInvariant(steps, Fresh(r), rest);
      AllOnesSucceed(steps, Run(steps, Fresh(r), rest), a.dispatch, a.poll);
      PollAdvances(steps, r, |run|);
    }
  }

  lemma LevelSettles(steps: seq<StepDef>, r: Mask, k: nat)
    requires WellFormed(steps) && AllListed(steps) && k > 0 && r <= Flags(steps)
    ensures Succeed(steps, Opened(steps, r, k - 1)) == Settled(steps, r, k)
  {
    var s := Opened(steps, r, k - 1);
    LevelsGrow(GraphOf(steps), k - 1);
    forall f | f in r && DepsOf(steps, f) <= s.passed ensures f in s.runnable {
      DepsAreListed(steps, f);
    }
    assert Check(steps, s).runnable == s.runnable;
  }

  lemma LevelOpens(steps: seq<StepDef>, r: Mask, k: nat)
    requires WellFormed(steps) && AllListed(steps) && r <= Flags(steps) && ClosedUnder(GraphOf(steps), r)
    ensures Succeed(steps, Settled(steps, r, k)) == Opened(steps, r, k)
  {
    var s, next := Settled(steps, r, k), Done(steps, r, k + 1);
    LevelsGrow(GraphOf(steps), k);
    forall f | f in r ensures DepsOf(steps, f) <= s.passed <==> f in next {
      DepsAreListed(steps, f);
    }
    assert Check(steps, s).runnable == next;
  }

  /** A fresh request on an acyclic list, polled with success, is fulfilled after exactly twice as many polls
      as its longest dependency chain has steps, and not earlier. */
  lemma FulfilledExactlyAt(steps: seq<StepDef>, m: Mask, run: seq<Action>)
    requires WellFormed(steps) && Acyclic(GraphOf(steps)) && AllListed(steps) && Successful(run)
    ensures var r := DependencyMask(steps, m);
      r <= Flags(steps)
      && (Fulfilled(Run(steps, Request(steps, RESET, m), run)) <==> |run| >= 2 * Height(GraphOf(steps), r))
  {
    var g, r := GraphOf(steps), DependencyMask(steps, m);
    DependencyMaskIsClosure(steps, m);
    assert Request(steps, RESET, m) == Fresh(r) by { assert {} + r == r; }
    TwoPollsPerLevel(steps, r, run);
    assert |run| >= 2 * Height(g, r) <==> |run| / 2 >= Height(g, r);
    FulfilledAtLevel(steps, r, |run| / 2);
    HeightIsLeast(g, r, |run| / 2);
  }

  lemma HeightIsLeast(g: Graph, r: Mask, k: nat)
    requires Acyclic(g) && r <= g.Keys
    ensures r <= Level(g, k) <==> k >= Height(g, r)
  {
    if k >= Height(g, r) {
      LevelsMonotone(g, Height(g, r), k);
    }
  }

  lemma FulfilledAtLevel(steps: seq<StepDef>, r: Mask, k: nat)
    ensures Fulfilled(Settled(steps, r, k)) <==> r <= Level(GraphOf(steps), k)
    ensures Fulfilled(Opened(steps, r, k)) <==> r <= Level(GraphOf(steps), k)
  {
  }
}
