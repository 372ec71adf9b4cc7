/** How many polls it takes to finish queued random-number jobs, and in what order they are answered. */
module CryptoDraining {
  import opened Basics
  import opened Priorities
  import opened Crypto

  /** No job is active, no answer is waiting, and all queued jobs are random-number jobs. */
  ghost predicate Ready<I>(p: Processor<I>) {
    && Invariant(p) && p.current == None && p.callbacks == []
    && forall i :: 0 <= i < |p.work| ==> p.ops[p.work[i].data].rng
  }

  ghost predicate AtRest<I>(p: Processor<I>) {
    p.work == [] && p.current == None && p.callbacks == []
  }

  /** Only polls, and no callback asks to be recycled. */
  ghost predicate Quiet<I>(es: seq<Event<I>>) {
    forall i :: 0 <= i < |es| ==> QuietPoll(es[i])
  }

  ghost predicate QuietPoll<I>(e: Event<I>) {
    e.Poll? && ValidOutcome(e.outcome) && e.answer != RECYCLE
  }

  /** A job that faults takes one poll, any other two. */
  ghost function Needed<I>(ops: map<I, Op>, work: seq<Entry<I>>): nat
    requires forall i :: 0 <= i < |work| ==> work[i].data in ops
  {
    if work == [] then 0 else (if WillFault(ops[work[0].data]) then 1 else 2) + Needed(ops, work[1..])
  }

  /** How many of the queued operations have a property. */
  ghost function Tally<I>(ops: map<I, Op>, work: seq<Entry<I>>, f: Op -> bool): nat
    requires forall i :: 0 <= i < |work| ==> work[i].data in ops
  {
    if work == [] then 0 else (if f(ops[work[0].data]) then 1 else 0) + Tally(ops, work[1..], f)
  }

  /** An operation that carries a fault; idle, it is left from an earlier run. */
  predicate HasFault(op: Op) {
    op.fault != NoFault
  }

  lemma {:induction false} NeededIs<I>(ops: map<I, Op>, work: seq<Entry<I>>)
    requires forall i :: 0 <= i < |work| ==> work[i].data in ops
    ensures Needed(ops, work) == 2 * |work| - Tally(ops, work, WillFault)
  {
    if work != [] {
      NeededIs(ops, work[1..]);
    }
  }

  /** Both maps hold the same operations for these entries. */
  ghost predicate Agree<I>(a: map<I, Op>, b: map<I, Op>, work: seq<Entry<I>>) {
    forall i :: 0 <= i < |work| ==> work[i].data in a && work[i].data in b && a[work[i].data] == b[work[i].data]
  }

  lemma {:induction false} AgreeCounts<I>(a: map<I, Op>, b: map<I, Op>, work: seq<Entry<I>>)
    requires Agree(a, b, work)
    ensures Needed(a, work) == Needed(b, work) && Tally(a, work, HasFault) == Tally(b, work, HasFault)
  {
    if work != [] {
      forall i | 0 <= i < |work[1..]|
        ensures work[1..][i].data in a && work[1..][i].data in b && a[work[1..][i].data] == b[work[1..][i].data] {
        assert work[1..][i] == work[i + 1];
      }
      AgreeCounts(a, b, work[1..]);
    }
  }

  /** The first job is done: answered, and gone from the queue. */
  ghost predicate FirstDone<I>(p: Processor<I>, q: Processor<I>)
    requires p.work != []
  {
    && Ready(q) && q.work == p.work[1..] && q.log == p.log + [Finished(p.work[0].data, false)]
    && p.work[0].data in p.ops && Agree(p.ops, q.ops, q.work)
    && q.failed == p.failed + if p.ops[p.work[0].data].fault != NoFault then 1 else 0
  }

  /** p with its first job in the active slot. */
  function Started<I>(p: Processor<I>, o: Outcome): Processor<I>
    requires p.work != [] && p.work[0].data in p.ops
  {
    var x := p.work[0].data;
    p.(work := p.work[1..], current := Some(x), ops := p.ops[x := Advance(Begun(p.ops[x]), o).0])
  }

  lemma StartedShape<I>(p: Processor<I>, o: Outcome)
    requires Ready(p) && p.work != [] && ValidOutcome(o)
    ensures var x, r := p.work[0].data, Started(p, o);
      && x in p.ops && x in r.ops && r.ops[x].state == Complete && r.ops[x].fault == p.ops[x].fault
      && AdvanceWork(p, o) == (if WillFault(p.ops[x]) then ToCallbacks(r, x) else r)
      && Agree(p.ops, r.ops, r.work)
  {
    var x := p.work[0].data;
    assert Placed(p, x);
    RandomStep(p.ops[x], o);
    OthersAgree(p, o);
  }

  lemma RandomStep(op: Op, o: Outcome)
    requires op.rng && op.state == Queued
    ensures var (moved, code) := Advance(Begun(op), o);
      moved.state == Complete && moved.fault == op.fault && (code != NoFault <==> WillFault(op))
  {
  }

  lemma OthersAgree<I>(p: Processor<I>, o: Outcome)
    requires Ready(p) && p.work != [] && p.work[0].data in p.ops
    ensures Agree(p.ops, Started(p, o).ops, p.work[1..])
  {
    Unqueued(p);
    NotHeld(p.work[1..], p.work[0].data);
    forall i | 0 <= i < |p.work| - 1 ensures p.work[1..][i] == p.work[i + 1] {
    }
  }

  /** A processor in which only job x, complete, waits for its answer. */
  ghost predicate Waiting<I>(p: Processor<I>, r: Processor<I>, x: I) {
    && Invariant(r) && p.work != [] && x == p.work[0].data && x in p.ops && x in r.ops
    && r.work == p.work[1..] && r.current == None && r.callbacks == [Entry(x, 0)]
    && r.log == p.log && r.failed == p.failed && r.ops[x].fault == p.ops[x].fault && Agree(p.ops, r.ops, r.work)
  }

  lemma AnswerGiven<I>(p: Processor<I>, r: Processor<I>, x: I, answer: int)
    requires Ready(p) && Waiting(p, r, x) && answer != RECYCLE
    ensures FirstDone(p, AdvanceCallbacks(r, answer))
  {
    AdvanceCallbacksKeeps(r, answer);
    var q := AdvanceCallbacks(r, answer);
    Unqueued(p);
    NotHeld(p.work[1..], x);
    assert q.callbacks == [];
    forall i | 0 <= i < |q.work| ensures q.work[i] == p.work[i + 1] {
    }
  }

  lemma InsertIntoEmpty<I>(e: Entry<I>)
    ensures Insert([], e) == [e]
  {
  }

  /** A job that faults is answered in the same poll. */
  lemma FaultingJob<I>(p: Processor<I>, e: Event<I>)
    requires Ready(p) && p.work != [] && QuietPoll(e) && p.work[0].data in p.ops && WillFault(p.ops[p.work[0].data])
    ensures FirstDone(p, Step(p, e))
  {
    var x := p.work[0].data;
    FaultWaits(p, e.outcome);
    QuietStep(p, e);
    AnswerGiven(p, AdvanceWork(p, e.outcome), x, e.answer);
  }

  lemma QuietStep<I>(p: Processor<I>, e: Event<I>)
    requires Invariant(p) && QuietPoll(e)
    ensures Step(p, e) == AdvanceCallbacks(AdvanceWork(p, e.outcome), e.answer)
  {
  }

  lemma FaultWaits<I>(p: Processor<I>, o: Outcome)
    requires Ready(p) && p.work != [] && ValidOutcome(o) && p.work[0].data in p.ops && WillFault(p.ops[p.work[0].data])
    ensures Waiting(p, AdvanceWork(p, o), p.work[0].data)
  {
    StartedShape(p, o);
    InsertIntoEmpty(Entry(p.work[0].data, 0));
  }

  /** Any other job is answered in the next one. */
  lemma SoundJob<I>(p: Processor<I>, e: Event<I>)
    requires Ready(p) && p.work != [] && QuietPoll(e) && p.work[0].data in p.ops && !WillFault(p.ops[p.work[0].data])
    ensures Step(p, e) == Started(p, e.outcome) && !AtRest(Step(p, e))
  {
    StartedShape(p, e.outcome);
  }

  lemma SoundJobDone<I>(p: Processor<I>, o: Outcome, e: Event<I>)
    requires Ready(p) && p.work != [] && QuietPoll(e) && ValidOutcome(o)
    requires p.work[0].data in p.ops && Invariant(Started(p, o))
    ensures FirstDone(p, Step(Started(p, o), e))
  {
    SoundWaits(p, o, e.outcome);
    QuietStep(Started(p, o), e);
    AnswerGiven(p, AdvanceWork(Started(p, o), e.outcome), p.work[0].data, e.answer);
  }

  lemma SoundWaits<I>(p: Processor<I>, o: Outcome, next: Outcome)
    requires Ready(p) && p.work != [] && ValidOutcome(o) && ValidOutcome(next)
    requires p.work[0].data in p.ops && Invariant(Started(p, o))
    ensures Waiting(p, AdvanceWork(Started(p, o), next), p.work[0].data)
  {
    StartedShape(p, o);
    InsertIntoEmpty(Entry(p.work[0].data, 0));
  }

  lemma LastStep<I>(p: Processor<I>, es: seq<Event<I>>)
    requires Invariant(p) && es != []
    ensures var q := Run(p, es[..|es| - 1]); Run(p, es) == Step(q, es[|es| - 1])
  {
  }

  lemma {:induction false} RunFirst<I>(p: Processor<I>, es: seq<Event<I>>)
    requires Invariant(p) && es != []
    ensures Invariant(Step(p, es[0])) && Run(p, es) == Run(Step(p, es[0]), es[1..])
  {
    StepKeeps(p, es[0]);
    var n, q, tail := |es| - 1, Step(p, es[0]), es[1..];
    if n == 0 {
      LastStep(p, es);
      assert es[..n] == [] && tail == [];
    } else {
      RunFirst(p, es[..n]);
      assert es[..n][1..] == tail[..n - 1];
      SameLast(p, es, q, tail);
    }
  }

  lemma SameLast<I>(p: Processor<I>, es: seq<Event<I>>, q: Processor<I>, tail: seq<Event<I>>)
    requires Invariant(p) && Invariant(q) && es != [] && tail != [] && es[|es| - 1] == tail[|tail| - 1]
    requires Run(p, es[..|es| - 1]) == Run(q, tail[..|tail| - 1])
    ensures Run(p, es) == Run(q, tail)
  {
    LastStep(p, es);
    LastStep(q, tail);
  }

  ghost function Cost(op: Op): nat {
    if WillFault(op) then 1 else 2
  }

  /** Enough polls for the first job finish it. */
  lemma FirstJob<I>(p: Processor<I>, es: seq<Event<I>>) returns (q: Processor<I>)
    requires Ready(p) && p.work != [] && p.work[0].data in p.ops && Quiet(es) && |es| >= Cost(p.ops[p.work[0].data])
    ensures FirstDone(p, q) && Run(p, es) == Run(q, es[Cost(p.ops[p.work[0].data])..])
  {
    RunFirst(p, es);
    if WillFault(p.ops[p.work[0].data]) {
      FaultingJob(p, es[0]);
      q := Step(p, es[0]);
    } else {
      SoundJob(p, es[0]);
      RunFirst(Step(p, es[0]), es[1..]);
      SoundJobDone(p, es[0].outcome, es[1]);
      q := Step(Step(p, es[0]), es[1]);
      assert es[1..][1..] == es[2..];
    }
  }

  lemma TooFew<I>(p: Processor<I>, es: seq<Event<I>>)
    requires Ready(p) && p.work != [] && p.work[0].data in p.ops && Quiet(es) && |es| < Cost(p.ops[p.work[0].data])
    ensures !AtRest(Run(p, es))
  {
    if es != [] {
      RunFirst(p, es);
      SoundJob(p, es[0]);
      assert es[1..] == [];
    }
  }

  ghost predicate Drained<I>(p: Processor<I>, q: Processor<I>)
    requires Ready(p)
  {
    AtRest(q) && q.log == p.log + Answers(p.work) && q.failed == p.failed + Tally(p.ops, p.work, HasFault)
  }

  /** After exactly as many polls as are needed all jobs are answered, in queue order; not earlier. */
  lemma {:induction false} Drains<I>(p: Processor<I>, es: seq<Event<I>>)
    requires Ready(p) && Quiet(es)
    ensures |es| < Needed(p.ops, p.work) ==> !AtRest(Run(p, es))
    ensures |es| == Needed(p.ops, p.work) ==> Drained(p, Run(p, es))
    decreases |es|
  {
    if p.work == [] {
      assert p.log + [] == p.log;
    } else {
      var c := Cost(p.ops[p.work[0].data]);
      if |es| < c {
        TooFew(p, es);
      } else {
        var q := FirstJob(p, es);
        Drains(q, es[c..]);
        AgreeCounts(p.ops, q.ops, q.work);
        if |es| == Needed(p.ops, p.work) {
          DrainedOn(p, q, Run(p, es));
        }
      }
    }
  }

  lemma DrainedOn<I>(p: Processor<I>, q: Processor<I>, r: Processor<I>)
    requires Ready(p) && p.work != [] && FirstDone(p, q) && Drained(q, r)
    ensures Drained(p, r)
  {
    AgreeCounts(p.ops, q.ops, q.work);
    Associative(p.log, [Finished(p.work[0].data, false)], Answers(q.work));
  }

  // ----- from submission to the last answer

  function Submissions<I>(subs: seq<Entry<I>>): (es: seq<Event<I>>)
    ensures |es| == |subs|
  {
    if subs == [] then []
    else Submissions(subs[..|subs| - 1]) + [Submit(subs[|subs| - 1].data, subs[|subs| - 1].priority)]
  }

  function Accepts<I>(subs: seq<Entry<I>>): seq<Note<I>> {
    if subs == [] then [] else Accepts(subs[..|subs| - 1]) + [Accepted(subs[|subs| - 1].data)]
  }

  /** Different idle random-number jobs. */
  ghost predicate Submittable<I>(p: Processor<I>, subs: seq<Entry<I>>) {
    && (forall i :: 0 <= i < |subs| ==>
          subs[i].data in p.ops && p.ops[subs[i].data].state == Idle && p.ops[subs[i].data].rng)
    && forall i, j :: 0 <= i < j < |subs| ==> subs[i].data != subs[j].data
  }

  /** The jobs of b are those of a, and only their states may differ; jobs not in subs are the same. */
  ghost predicate OnlyQueues<I>(a: map<I, Op>, b: map<I, Op>, subs: seq<Entry<I>>) {
    && a.Keys == b.Keys
    && (forall id :: id in a ==> b[id] == a[id].(state := b[id].state))
    && (forall id :: id in a && Holds(subs, id) == 0 ==> b[id] == a[id])
  }

  /** The processor after some submissions. */
  ghost predicate Loaded<I>(p: Processor<I>, q: Processor<I>, subs: seq<Entry<I>>) {
    && Ready(q) && q.work == InsertAll(subs) && |q.work| == |subs| && q.log == p.log + Accepts(subs)
    && q.failed == p.failed && q.depth == p.depth && OnlyQueues(p.ops, q.ops, subs)
  }

  lemma {:induction false} Submitted<I>(p: Processor<I>, subs: seq<Entry<I>>)
    requires Ready(p) && p.work == [] && Submittable(p, subs) && |subs| <= p.depth
    ensures Loaded(p, Run(p, Submissions(subs)), subs)
    decreases |subs|
  {
    if subs == [] {
      NothingSubmitted(p);
    } else {
      var l, e := LastOf(p, subs);
      Submitted(p, l);
      RunLast(p, Submissions(l), Submit(e.data, e.priority));
      OneMore(p, Run(p, Submissions(l)), l, e);
    }
  }

  lemma NothingSubmitted<I>(p: Processor<I>)
    requires Ready(p) && p.work == []
    ensures Loaded(p, p, [])
  {
    assert p.log + [] == p.log;
  }

  lemma LastOf<I>(p: Processor<I>, subs: seq<Entry<I>>) returns (l: seq<Entry<I>>, e: Entry<I>)
    requires Submittable(p, subs) && subs != []
    ensures subs == l + [e] && |l| < |subs| && Submittable(p, l) && Holds(l, e.data) == 0
    ensures e.data in p.ops && p.ops[e.data].state == Idle && p.ops[e.data].rng
    ensures Submissions(subs) == Submissions(l) + [Submit(e.data, e.priority)]
  {
    l, e := subs[..|subs| - 1], subs[|subs| - 1];
    HoldsNone(l, e.data);
  }

  lemma RunLast<I>(p: Processor<I>, es: seq<Event<I>>, e: Event<I>)
    requires Invariant(p)
    ensures Run(p, es + [e]) == Step(Run(p, es), e)
  {
    assert (es + [e])[..|es|] == es;
  }

  lemma OneMore<I>(p: Processor<I>, r: Processor<I>, l: seq<Entry<I>>, e: Entry<I>)
    requires Loaded(p, r, l) && |l| < r.depth
    requires e.data in p.ops && p.ops[e.data].state == Idle && p.ops[e.data].rng && Holds(l, e.data) == 0
    ensures Loaded(p, Step(r, Submit(e.data, e.priority)), l + [e])
  {
    assert Entry(e.data, e.priority) == e && (l + [e])[..|l|] == l;
    QueuedShape(r, e);
    QueueJobKeeps(r, e.data, e.priority);
    QueueOne(p.ops, r.ops, l, e);
    StillRandom(r.work, e, r.ops);
    Associative(p.log, Accepts(l), [Accepted(e.data)]);
  }

  lemma QueuedShape<I>(r: Processor<I>, e: Entry<I>)
    requires Invariant(r) && e.data in r.ops && r.ops[e.data].state == Idle && |r.work| < r.depth
    ensures QueueJob(r, e.data, e.priority).0
         == r.(ops := r.ops[e.data := r.ops[e.data].(state := Queued)], work := Insert(r.work, e),
                log := r.log + [Accepted(e.data)])
  {
    assert Placed(r, e.data) && Entry(e.data, e.priority) == e;
  }

  lemma QueueOne<I>(a: map<I, Op>, b: map<I, Op>, l: seq<Entry<I>>, e: Entry<I>)
    requires OnlyQueues(a, b, l) && e.data in b
    ensures OnlyQueues(a, b[e.data := b[e.data].(state := Queued)], l + [e])
  {
    forall id ensures Holds(l + [e], id) == Holds(l, id) + if id == e.data then 1 else 0 {
      HoldsConcat(l, [e], id);
      assert [e][1..] == [];
    }
  }

  lemma StillRandom<I>(work: seq<Entry<I>>, e: Entry<I>, ops: map<I, Op>)
    requires forall i :: 0 <= i < |work| ==> work[i].data in ops && ops[work[i].data].rng
    requires e.data in ops && ops[e.data].rng
    ensures var t, m := Insert(work, e), ops[e.data := ops[e.data].(state := Queued)];
      forall i :: 0 <= i < |t| ==> t[i].data in m && m[t[i].data].rng
  {
  }

  /** A tally does not depend on the order of the jobs. */
  lemma {:induction false} TallyInAnyOrder<I>(ops: map<I, Op>, subs: seq<Entry<I>>, f: Op -> bool)
    requires forall i :: 0 <= i < |subs| ==> subs[i].data in ops
    ensures var t := InsertAll(subs);
      (forall i :: 0 <= i < |t| ==> t[i].data in ops) && |t| == |subs| && Tally(ops, t, f) == Tally(ops, subs, f)
    decreases |subs|
  {
    if subs != [] {
      var l, e := subs[..|subs| - 1], subs[|subs| - 1];
      TallyInAnyOrder(ops, l, f);
      TallyInsert(ops, InsertAll(l), e, f);
      TallyConcat(ops, l, [e], f);
      assert subs == l + [e];
    }
  }

  lemma TallyInsert<I>(ops: map<I, Op>, t: seq<Entry<I>>, e: Entry<I>, f: Op -> bool)
    requires (forall i :: 0 <= i < |t| ==> t[i].data in ops) && e.data in ops
    ensures forall i :: 0 <= i < |Insert(t, e)| ==> Insert(t, e)[i].data in ops
    ensures Tally(ops, Insert(t, e), f) == Tally(ops, t, f) + Tally(ops, [e], f)
  {
    var k := Leading(t, e.priority);
    InsertAtConcat(t, k, e);
    TallyConcat(ops, t[..k] + [e], t[k..], f);
    TallyConcat(ops, t[..k], [e], f);
    TallyConcat(ops, t[..k], t[k..], f);
    assert t == t[..k] + t[k..];
  }

  lemma {:induction false} TallyConcat<I>(ops: map<I, Op>, s: seq<Entry<I>>, t: seq<Entry<I>>, f: Op -> bool)
    requires (forall i :: 0 <= i < |s| ==> s[i].data in ops) && (forall i :: 0 <= i < |t| ==> t[i].data in ops)
    ensures forall i :: 0 <= i < |s + t| ==> (s + t)[i].data in ops
    ensures Tally(ops, s + t, f) == Tally(ops, s, f) + Tally(ops, t, f)
  {
    if s == [] {
      assert s + t == t;
    } else {
      TallyConcat(ops, s[1..], t, f);
      assert (s + t)[1..] == s[1..] + t;
    }
  }

  /** Random-number jobs that are submitted to a processor at rest are all answered, in the order of a
      stable descending sort by priority, after exactly two polls for each job, less one for each that
      faults; not earlier.  None of these faults is counted as a failure; what is counted are the
      faults that jobs brought along from earlier runs. */
  lemma AnsweredInOrder<I>(p: Processor<I>, subs: seq<Entry<I>>, es: seq<Event<I>>)
    requires Ready(p) && p.work == [] && Submittable(p, subs) && |subs| <= p.depth && Quiet(es)
    ensures var q, n := Run(Run(p, Submissions(subs)), es), 2 * |subs| - Tally(p.ops, subs, WillFault);
      && StableSortOf(InsertAll(subs), subs)
      && (|es| < n ==> !AtRest(q))
      && (|es| == n ==> AtRest(q) && q.log == p.log + Accepts(subs) + Answers(InsertAll(subs))
                        && q.failed == p.failed + Tally(p.ops, subs, HasFault))
  {
    var r := Run(p, Submissions(subs));
    Submitted(p, subs);
    InsertAllSorts(subs);
    TallyInAnyOrder(p.ops, subs, WillFault);
    TallyInAnyOrder(p.ops, subs, HasFault);
    SameTallies(p.ops, r.ops, r.work);
    NeededIs(r.ops, r.work);
    Drains(r, es);
  }

  lemma {:induction false} SameTallies<I>(a: map<I, Op>, b: map<I, Op>, work: seq<Entry<I>>)
    requires forall i :: 0 <= i < |work| ==> work[i].data in a
    requires a.Keys == b.Keys && forall id :: id in a ==> b[id] == a[id].(state := b[id].state)
    ensures Tally(a, work, WillFault) == Tally(b, work, WillFault)
         && Tally(a, work, HasFault) == Tally(b, work, HasFault)
  {
    if work != [] {
      SameTallies(a, b, work[1..]);
    }
  }
}
