/** The life of cryptographic operations in a processor: a bounded work queue, an active slot and a
    callback queue.  I is the type of operation identities. */
module Crypto {
  import opened Basics
  import opened Priorities

  datatype OpState = Undef | Idle | Queued | Initiate | Wait | Cleanup | Complete

  datatype Fault = NoFault | NoReason | UnhandledAlgo | BadParam
    | Mem | IllegalState | Timeout | HwFault | Recalled | QueueFlush

  /** hasResult: there is a result buffer; allocates, freesResult, keep: the three class flags. */
  datatype Op = Op(state: OpState, fault: Fault, hasCallback: bool, keep: bool,
                   rng: bool, hasResult: bool, resultLen: nat, allocates: bool, freesResult: bool)

  /** What an implementation other than the random number generator makes of one step. */
  datatype Outcome = Outcome(state: OpState, fault: Fault, code: Fault)

  /** What happened to an operation: the processor took it, or called it back and either recycled or
      reclaimed it (or only reclaimed it, if it has no callback). */
  datatype Note<I> = Accepted(id: I) | Finished(id: I, recycled: bool)

  /** seen and log are history: the operations that ever existed, and what happened to them. */
  datatype Processor<I> = Processor(
    ops: map<I, Op>, depth: nat,
    work: seq<Entry<I>>, current: Option<I>, callbacks: seq<Entry<I>>,
    total: nat, failed: nat, frees: nat, seen: set<I>, log: seq<Note<I>>)

  const RECYCLE := 1

  // ----- one operation

  predicate InProgress(s: OpState) {
    s == Initiate || s == Wait || s == Cleanup
  }

  /** An implementation leaves its operation in one of the later states. */
  predicate ValidOutcome(o: Outcome) {
    InProgress(o.state) || o.state == Complete
  }

  /** The random number generator needs a buffer, or permission and a length to get one. */
  predicate WillFault(op: Op) {
    !op.hasResult && !(op.resultLen > 0 && op.allocates)
  }

  function AdvanceRng(op: Op): (Op, Fault) {
    match op.state
    case Initiate =>
      if WillFault(op) then (op, Mem)
      else if op.hasResult then (op.(state := Complete), NoFault)
      else (op.(state := Complete, hasResult := true, freesResult := true), NoFault)
    case Wait => (op.(state := Complete), NoFault)
    case Cleanup => (op.(state := Complete), NoFault)
    case _ => (op, NoFault)
  }

  function Advance(op: Op, o: Outcome): (Op, Fault) {
    var (moved, code) :=
      if op.state == Idle || op.state == Queued then (op, IllegalState)
      else if !InProgress(op.state) then (op, NoFault)
      else if op.rng then AdvanceRng(op)
      else (op.(state := o.state, fault := o.fault), o.code);
    (if code != NoFault then moved.(state := Complete) else moved, code)
  }

  function Abort(op: Op, f: Fault): Op {
    op.(state := Complete, fault := f)
  }

  function MarkForRequeue(op: Op): Op {
    op.(state := Idle, fault := NoFault)
  }

  function Wiped(op: Op): Op {
    if op.freesResult && op.hasResult then op.(hasResult := false, resultLen := 0) else op
  }

  // ----- queues

  /** How many entries hold an operation. */
  function Holds<I(==)>(s: seq<Entry<I>>, id: I): nat {
    if s == [] then 0 else (if s[0].data == id then 1 else 0) + Holds(s[1..], id)
  }

  function InsertIfAbsent<I(==)>(s: seq<Entry<I>>, id: I, priority: int): seq<Entry<I>> {
    if Holds(s, id) > 0 then s else Insert(s, Entry(id, priority))
  }

  // ----- the processor

  /** The code is 0, -1 for an operation that is not idle, -2 for one that finds no room or is queued. */
  ghost function QueueJob<I>(p: Processor<I>, id: I, priority: int): (r: (Processor<I>, int))
    requires id in p.ops
    ensures r.0.depth == p.depth
  {
    if p.ops[id].state != Idle then (p, -1)
    else if |p.work| >= p.depth then
      (p.(ops := p.ops[id := Abort(p.ops[id], QueueFlush)],
          callbacks := InsertIfAbsent(p.callbacks, id, priority),
          log := p.log + [Accepted(id)]), -2)
    else if Holds(p.work, id) > 0 then (p, -2)
    else
      (p.(ops := p.ops[id := p.ops[id].(state := Queued)],
          work := Insert(p.work, Entry(id, priority)),
          log := p.log + [Accepted(id)]), 0)
  }

  ghost function Reclaim<I>(p: Processor<I>, id: I): Processor<I>
    requires id in p.ops
  {
    var op := p.ops[id];
    var counted := p.(total := p.total + 1, failed := if op.fault != NoFault then p.failed + 1 else p.failed);
    if op.keep then counted.(ops := p.ops[id := Wiped(op).(state := Idle)])
    else counted.(ops := p.ops - {id}, frees := p.frees + 1)
  }

  /** An operation that is in no queue any more is aborted, called back and reclaimed. */
  ghost function Flush<I>(p: Processor<I>, id: I): Processor<I>
    requires id in p.ops
  {
    Reclaim(p.(ops := p.ops[id := Abort(p.ops[id], QueueFlush)], log := p.log + [Finished(id, false)]), id)
  }

  ghost function PurgeCurrent<I>(p: Processor<I>): (q: Processor<I>)
    requires p.current.Some? ==> p.current.value in p.ops
    ensures q.depth == p.depth
  {
    match p.current
    case None => p
    case Some(id) => Flush(p.(current := None), id)
  }

  ghost function PurgeQueued<I>(p: Processor<I>): (q: Processor<I>)
    ensures q.depth == p.depth
    decreases |p.work|
  {
    if p.work == [] || p.work[0].data !in p.ops then p
    else PurgeQueued(Flush(p.(work := p.work[1..]), p.work[0].data))
  }

  /** Takes a job if none is active. */
  function TakeJob<I>(p: Processor<I>): Processor<I> {
    if p.current == None && p.work != [] then p.(current := Some(p.work[0].data), work := p.work[1..]) else p
  }

  ghost function ToCallbacks<I>(p: Processor<I>, id: I): Processor<I> {
    p.(current := None, callbacks := Insert(p.callbacks, Entry(id, 0)))
  }

  function Begun(op: Op): Op {
    if op.state == Idle || op.state == Queued then op.(state := Initiate) else op
  }

  ghost function AdvanceCurrent<I>(p: Processor<I>, o: Outcome): (q: Processor<I>)
    requires p.current.Some? ==> p.current.value in p.ops
    ensures q.depth == p.depth
  {
    match p.current
    case None => p
    case Some(id) =>
      var op := p.ops[id];
      if op.state == Undef then p
      else if op.state == Complete then ToCallbacks(p, id)
      else
        var (moved, code) := Advance(Begun(op), o);
        var q := p.(ops := p.ops[id := moved]);
        if code != NoFault then ToCallbacks(q, id) else q
  }

  ghost function AdvanceCallbacks<I>(p: Processor<I>, answer: int): (q: Processor<I>)
    requires p.callbacks != [] ==> p.callbacks[0].data in p.ops
    ensures q.depth == p.depth
  {
    if p.callbacks == [] then p
    else
      var id := p.callbacks[0].data;
      var again := p.ops[id].hasCallback && answer == RECYCLE;
      var q := p.(callbacks := p.callbacks[1..], log := p.log + [Finished(id, again)]);
      if again then QueueJob(q.(ops := p.ops[id := MarkForRequeue(p.ops[id])]), id, 0).0
      else Reclaim(q, id)
  }

  // ----- runs

  /** Environment: new operations, submissions, purges, and polls with what an implementation does and
      what a callback answers. */
  datatype Event<I> =
    | Create(id: I, op: Op)
    | Submit(id: I, priority: int)
    | Poll(outcome: Outcome, answer: int)
    | DropCurrent
    | DropQueued

  ghost predicate Possible<I>(p: Processor<I>, e: Event<I>) {
    match e
    case Create(id, op) => id !in p.seen && op.state == Idle
    case Submit(id, _) => id in p.ops
    case Poll(o, _) => ValidOutcome(o)
    case DropCurrent => true
    case DropQueued => true
  }

  /** One event; what is not possible changes nothing. */
  ghost function Step<I>(p: Processor<I>, e: Event<I>): Processor<I>
    requires Invariant(p)
  {
    if !Possible(p, e) then p
    else
      match e
      case Create(id, op) => p.(ops := p.ops[id := op], seen := p.seen + {id})
      case Submit(id, priority) => QueueJob(p, id, priority).0
      case Poll(o, answer) => AdvanceCallbacks(AdvanceWork(p, o), answer)
      case DropCurrent => PurgeCurrent(p)
      case DropQueued => PurgeQueued(p)
  }

  ghost function AdvanceWork<I>(p: Processor<I>, o: Outcome): (q: Processor<I>)
    requires Invariant(p) && ValidOutcome(o)
    ensures Invariant(q) && q.depth == p.depth
  {
    var t := TakeJob(p);
    TakeJobKeeps(p);
    AdvanceCurrentKeeps(t, o);
    AdvanceCurrent(t, o)
  }

  /** What a series of answers without recycling leaves in the log. */
  ghost function Answers<I>(work: seq<Entry<I>>): seq<Note<I>> {
    if work == [] then [] else [Finished(work[0].data, false)] + Answers(work[1..])
  }

  // ----- where an operation is

  function InSlot<I(==)>(p: Processor<I>, id: I): nat {
    if p.current == Some(id) then 1 else 0
  }

  /** In how many places an operation is. */
  function Places<I(==)>(p: Processor<I>, id: I): nat {
    Holds(p.work, id) + InSlot(p, id) + Holds(p.callbacks, id)
  }

  /** Submissions of an operation that have not been answered. */
  function Owed<I(==)>(log: seq<Note<I>>, id: I): int {
    if log == [] then 0
    else Owed(log[..|log| - 1], id) + Weight(log[|log| - 1], id)
  }

  function Weight<I(==)>(n: Note<I>, id: I): int {
    if n.id != id then 0 else if n.Accepted? then 1 else -1
  }

  /** Submissions and answers of an operation alternate, and a submission comes first. */
  ghost predicate Alternating<I>(log: seq<Note<I>>, id: I) {
    log == [] || (Alternating(log[..|log| - 1], id) && 0 <= Owed(log, id) <= 1)
  }

  /** An operation is in at most one place; it is in one when an answer is owed; and its state says where. */
  ghost predicate Placed<I>(p: Processor<I>, id: I) {
    && Places(p, id) <= 1 && Places(p, id) == Owed(p.log, id)
    && (id !in p.ops ==> Places(p, id) == 0)
    && (id in p.ops ==>
          match p.ops[id].state
          case Undef => false
          case Idle => Places(p, id) == 0
          case Queued => Holds(p.work, id) == 1
          case Complete => Holds(p.work, id) == 0 && Places(p, id) == 1
          case _ => InSlot(p, id) == 1)
  }

  ghost predicate Known<I>(s: seq<Entry<I>>, p: Processor<I>) {
    forall i :: 0 <= i < |s| ==> s[i].data in p.ops
  }

  /** All but x are placed. */
  ghost predicate Others<I>(p: Processor<I>, x: set<I>) {
    && |p.work| <= p.depth && Sorted(p.work) && Sorted(p.callbacks)
    && p.ops.Keys <= p.seen && Known(p.work, p) && Known(p.callbacks, p)
    && (forall i :: 0 <= i < |p.log| ==> p.log[i].id in p.seen)
    && forall id :: id in p.seen && id !in x ==> Placed(p, id)
  }

  ghost predicate Invariant<I>(p: Processor<I>) {
    Others(p, {}) && (p.current.Some? ==> p.current.value in p.ops)
  }

  /** The operations that come next exist. */
  ghost predicate HeadsKnown<I>(p: Processor<I>) {
    && (p.work != [] ==> p.work[0].data in p.ops)
    && (p.callbacks != [] ==> p.callbacks[0].data in p.ops)
    && (p.current.Some? ==> p.current.value in p.ops)
  }

  // ----- lemmas about queues and logs

  lemma {:induction false} HoldsConcat<I>(s: seq<Entry<I>>, t: seq<Entry<I>>, id: I)
    ensures Holds(s + t, id) == Holds(s, id) + Holds(t, id)
  {
    if s == [] {
      assert s + t == t;
    } else {
      HoldsConcat(s[1..], t, id);
      assert (s + t)[1..] == s[1..] + t;
    }
  }

  lemma HoldsInsert<I>(s: seq<Entry<I>>, e: Entry<I>, id: I)
    ensures Holds(Insert(s, e), id) == Holds(s, id) + if e.data == id then 1 else 0
  {
    var k := Leading(s, e.priority);
    InsertAtConcat(s, k, e);
    HoldsConcat(s[..k] + [e], s[k..], id);
    HoldsConcat(s[..k], [e], id);
    HoldsConcat(s[..k], s[k..], id);
    assert s == s[..k] + s[k..];
    assert [e][1..] == [];
  }

  lemma {:induction false} HoldsNone<I>(s: seq<Entry<I>>, id: I)
    requires forall i :: 0 <= i < |s| ==> s[i].data != id
    ensures Holds(s, id) == 0
  {
    if s != [] {
      HoldsNone(s[1..], id);
    }
  }

  lemma KnownInsert<I>(s: seq<Entry<I>>, e: Entry<I>, p: Processor<I>)
    requires Known(s, p) && e.data in p.ops
    ensures Known(Insert(s, e), p)
  {
  }

  lemma OwedSnoc<I>(log: seq<Note<I>>, n: Note<I>, id: I)
    ensures Owed(log + [n], id) == Owed(log, id) + Weight(n, id)
  {
    assert (log + [n])[..|log|] == log;
  }

  lemma {:induction false} OwedNone<I>(log: seq<Note<I>>, id: I)
    requires forall i :: 0 <= i < |log| ==> log[i].id != id
    ensures Owed(log, id) == 0
  {
    if log != [] {
      OwedNone(log[..|log| - 1], id);
    }
  }

  lemma {:induction false} AlternatingNone<I>(log: seq<Note<I>>, id: I)
    requires forall i :: 0 <= i < |log| ==> log[i].id != id
    ensures Alternating(log, id)
  {
    if log != [] {
      AlternatingNone(log[..|log| - 1], id);
      OwedNone(log, id);
    }
  }

  // ----- every step keeps the invariant

  lemma TakeJobKeeps<I>(p: Processor<I>)
    requires Invariant(p)
    ensures var q := TakeJob(p);
      match q.current
      case None => q == p
      case Some(x) => Others(q, {x}) && Active(q, x)
  {
  }

  /** An operation in the active slot, before it is advanced. */
  ghost predicate Active<I>(p: Processor<I>, x: I) {
    && p.current == Some(x) && x in p.ops && Places(p, x) == 1 && Owed(p.log, x) == 1
    && p.ops[x].state != Undef && p.ops[x].state != Idle
  }

  lemma SetOp<I>(p: Processor<I>, x: I, op: Op)
    requires Others(p, {x}) && x in p.ops
    ensures Others(p.(ops := p.ops[x := op]), {x})
  {
    var q := p.(ops := p.ops[x := op]);
    forall id | id in q.seen && id !in {x} ensures Placed(q, id) {
      assert Placed(p, id);
    }
  }

  lemma AllPlaced<I>(p: Processor<I>, x: I)
    requires Others(p, {x}) && Placed(p, x)
    ensures Others(p, {})
  {
  }

  lemma ToCallbacksKeeps<I>(p: Processor<I>, x: I)
    requires Others(p, {x}) && Active(p, x) && p.ops[x].state == Complete
    ensures Invariant(ToCallbacks(p, x))
  {
    var q, e := ToCallbacks(p, x), Entry(x, 0);
    InsertIsStable(p.callbacks, e);
    KnownInsert(p.callbacks, e, p);
    forall id ensures Holds(q.callbacks, id) == Holds(p.callbacks, id) + if x == id then 1 else 0 {
      HoldsInsert(p.callbacks, e, id);
    }
    forall id | id in q.seen ensures Placed(q, id) {
      assert id != x ==> Placed(p, id);
    }
  }

  lemma AdvanceLeaves(op: Op, o: Outcome)
    requires ValidOutcome(o) && op.state != Undef && op.state != Complete
    ensures var (moved, code) := Advance(Begun(op), o);
      if code != NoFault then moved.state == Complete else InProgress(moved.state) || moved.state == Complete
  {
  }

  lemma AdvanceCurrentKeeps<I>(p: Processor<I>, o: Outcome)
    requires ValidOutcome(o)
    requires match p.current case None => Invariant(p) case Some(x) => Others(p, {x}) && Active(p, x)
    ensures Invariant(AdvanceCurrent(p, o))
  {
    if p.current.Some? {
      var x := p.current.value;
      var op := p.ops[x];
      if op.state == Complete {
        ToCallbacksKeeps(p, x);
      } else {
        var (moved, code) := Advance(Begun(op), o);
        AdvanceLeaves(op, o);
        var q := p.(ops := p.ops[x := moved]);
        SetOp(p, x, moved);
        if code != NoFault {
          ToCallbacksKeeps(q, x);
        } else {
          AllPlaced(q, x);
        }
      }
    }
  }

  /** An operation that is in no place, and whose last answer has just been given. */
  ghost predicate Settled<I>(p: Processor<I>, x: I) {
    Others(p, {x}) && x in p.ops && Places(p, x) == 0 && Owed(p.log, x) == 0
  }

  lemma Noted<I>(p: Processor<I>, n: Note<I>)
    requires Others(p, {n.id}) && n.id in p.ops
    ensures Others(p.(log := p.log + [n]), {n.id})
    ensures Owed(p.log + [n], n.id) == Owed(p.log, n.id) + Weight(n, n.id)
  {
    var q := p.(log := p.log + [n]);
    OwedSnoc(p.log, n, n.id);
    forall id | id in q.seen && id !in {n.id} ensures Placed(q, id) {
      OwedSnoc(p.log, n, id);
      assert Placed(p, id);
    }
  }

  lemma ReclaimKeeps<I>(p: Processor<I>, x: I)
    requires Settled(p, x) && (p.current.Some? ==> p.current.value in p.ops)
    ensures Invariant(Reclaim(p, x))
  {
    var q := Reclaim(p, x);
    assert x in p.seen;
    if p.ops[x].keep {
      SetOp(p, x, Wiped(p.ops[x]).(state := Idle));
      AllPlaced(p.(ops := p.ops[x := Wiped(p.ops[x]).(state := Idle)]), x);
      forall id | id in q.seen ensures Placed(q, id) {
        assert Placed(p.(ops := q.ops), id);
      }
    } else {
      NotHeld(p.work, x);
      NotHeld(p.callbacks, x);
      forall id | id in q.seen ensures Placed(q, id) {
        assert id != x ==> Placed(p, id);
      }
    }
  }

  lemma {:induction false} NotHeld<I>(s: seq<Entry<I>>, x: I)
    requires Holds(s, x) == 0
    ensures forall i :: 0 <= i < |s| ==> s[i].data != x
  {
    if s != [] {
      NotHeld(s[1..], x);
      forall i | 0 <= i < |s| ensures s[i].data != x {
        assert i > 0 ==> s[i] == s[1..][i - 1];
      }
    }
  }

  lemma QueueJobKeeps<I>(p: Processor<I>, x: I, priority: int)
    requires Invariant(p) && x in p.ops
    ensures Invariant(QueueJob(p, x, priority).0)
  {
    var e := Entry(x, priority);
    assert Placed(p, x);
    if p.ops[x].state == Idle {
      Noted(p, Accepted(x));
      if |p.work| >= p.depth {
        Overflows(p.(log := p.log + [Accepted(x)]), x, priority);
      } else {
        Enqueues(p.(log := p.log + [Accepted(x)]), x, priority);
      }
    }
  }

  lemma Overflows<I>(p: Processor<I>, x: I, priority: int)
    requires Others(p, {x}) && x in p.ops && Places(p, x) == 0 && Owed(p.log, x) == 1
    requires p.current.Some? ==> p.current.value in p.ops
    ensures Invariant(p.(ops := p.ops[x := Abort(p.ops[x], QueueFlush)],
                         callbacks := InsertIfAbsent(p.callbacks, x, priority)))
  {
    var e := Entry(x, priority);
    var q := p.(ops := p.ops[x := Abort(p.ops[x], QueueFlush)], callbacks := Insert(p.callbacks, e));
    InsertIsStable(p.callbacks, e);
    KnownInsert(p.callbacks, e, p);
    forall id ensures Holds(q.callbacks, id) == Holds(p.callbacks, id) + if x == id then 1 else 0 {
      HoldsInsert(p.callbacks, e, id);
    }
    forall id | id in q.seen ensures Placed(q, id) {
      assert id != x ==> Placed(p, id);
    }
  }

  lemma Enqueues<I>(p: Processor<I>, x: I, priority: int)
    requires Others(p, {x}) && x in p.ops && Places(p, x) == 0 && Owed(p.log, x) == 1 && |p.work| < p.depth
    requires p.current.Some? ==> p.current.value in p.ops
    ensures Invariant(p.(ops := p.ops[x := p.ops[x].(state := Queued)], work := Insert(p.work, Entry(x, priority))))
  {
    var e := Entry(x, priority);
    var q := p.(ops := p.ops[x := p.ops[x].(state := Queued)], work := Insert(p.work, e));
    InsertIsStable(p.work, e);
    KnownInsert(p.work, e, p);
    forall id ensures Holds(q.work, id) == Holds(p.work, id) + if x == id then 1 else 0 {
      HoldsInsert(p.work, e, id);
    }
    forall id | id in q.seen ensures Placed(q, id) {
      assert id != x ==> Placed(p, id);
    }
  }

  lemma AdvanceCallbacksKeeps<I>(p: Processor<I>, answer: int)
    requires Invariant(p)
    ensures Invariant(AdvanceCallbacks(p, answer))
  {
    if p.callbacks != [] {
      var x := p.callbacks[0].data;
      var again := p.ops[x].hasCallback && answer == RECYCLE;
      var q := p.(callbacks := p.callbacks[1..]);
      assert Placed(p, x);
      Dropped(p);
      Noted(q, Finished(x, again));
      var r := q.(log := p.log + [Finished(x, again)]);
      if again {
        SetOp(r, x, MarkForRequeue(p.ops[x]));
        AllPlaced(r.(ops := p.ops[x := MarkForRequeue(p.ops[x])]), x);
        QueueJobKeeps(r.(ops := p.ops[x := MarkForRequeue(p.ops[x])]), x, 0);
      } else {
        ReclaimKeeps(r, x);
      }
    }
  }

  /** Taking the first operation off the callback queue. */
  lemma Dropped<I>(p: Processor<I>)
    requires Invariant(p) && p.callbacks != []
    ensures var x, q := p.callbacks[0].data, p.(callbacks := p.callbacks[1..]);
      Others(q, {x}) && Places(q, x) == 0 && Owed(q.log, x) == 1
  {
    var x, q := p.callbacks[0].data, p.(callbacks := p.callbacks[1..]);
    assert Placed(p, x);
    forall id | id in q.seen && id !in {x} ensures Placed(q, id) {
      assert Placed(p, id);
    }
  }

  /** Taking the first operation off the work queue. */
  lemma Unqueued<I>(p: Processor<I>)
    requires Invariant(p) && p.work != []
    ensures var x, q := p.work[0].data, p.(work := p.work[1..]);
      Others(q, {x}) && x in p.ops && Places(q, x) == 0 && Owed(q.log, x) == 1
      && (p.current.Some? ==> p.current.value != x)
  {
    var x, q := p.work[0].data, p.(work := p.work[1..]);
    assert Placed(p, x);
    forall id | id in q.seen && id !in {x} ensures Placed(q, id) {
      assert Placed(p, id);
    }
  }

  lemma FlushKeeps<I>(p: Processor<I>, x: I)
    requires Others(p, {x}) && x in p.ops && Places(p, x) == 0 && Owed(p.log, x) == 1
    requires p.current.Some? ==> p.current.value in p.ops
    ensures Invariant(Flush(p, x))
  {
    var q := p.(ops := p.ops[x := Abort(p.ops[x], QueueFlush)]);
    SetOp(p, x, Abort(p.ops[x], QueueFlush));
    Noted(q, Finished(x, false));
    ReclaimKeeps(q.(log := p.log + [Finished(x, false)]), x);
  }

  lemma PurgeCurrentKeeps<I>(p: Processor<I>)
    requires Invariant(p)
    ensures Invariant(PurgeCurrent(p)) && PurgeCurrent(p).current == None
  {
    if p.current.Some? {
      var x := p.current.value;
      var q := p.(current := None);
      assert Placed(p, x);
      forall id | id in q.seen && id !in {x} ensures Placed(q, id) {
        assert Placed(p, id);
      }
      FlushKeeps(q, x);
    }
  }

  lemma {:induction false} PurgeQueuedKeeps<I>(p: Processor<I>)
    requires Invariant(p)
    ensures Invariant(PurgeQueued(p)) && PurgeQueued(p).work == []
    decreases |p.work|
  {
    if p.work != [] {
      Unqueued(p);
      FlushKeeps(p.(work := p.work[1..]), p.work[0].data);
      PurgeQueuedKeeps(Flush(p.(work := p.work[1..]), p.work[0].data));
    }
  }

  lemma CreateKeeps<I>(p: Processor<I>, x: I, op: Op)
    requires Invariant(p) && x !in p.seen && op.state == Idle
    ensures Invariant(p.(ops := p.ops[x := op], seen := p.seen + {x}))
  {
    var q := p.(ops := p.ops[x := op], seen := p.seen + {x});
    HoldsNone(p.work, x);
    HoldsNone(p.callbacks, x);
    OwedNone(p.log, x);
    forall id | id in q.seen ensures Placed(q, id) {
      assert id != x ==> Placed(p, id);
    }
  }

  lemma StepKeeps<I>(p: Processor<I>, e: Event<I>)
    requires Invariant(p)
    ensures Invariant(Step(p, e)) && Step(p, e).depth == p.depth
  {
    if Possible(p, e) {
      match e
      case Create(id, op) => CreateKeeps(p, id, op);
      case Submit(id, priority) => QueueJobKeeps(p, id, priority);
      case Poll(o, answer) => AdvanceCallbacksKeeps(AdvanceWork(p, o), answer);
      case DropCurrent => PurgeCurrentKeeps(p);
      case DropQueued => PurgeQueuedKeeps(p);
    }
  }

  // ----- what clients may do to an operation that the processor may have

  /** Setting one operation from outside keeps the invariant exactly if that operation stays placed. */
  lemma SetFromOutside<I>(p: Processor<I>, x: I, op: Op)
    requires Invariant(p) && x in p.ops
    ensures var q := p.(ops := p.ops[x := op]); Invariant(q) <==> Placed(q, x)
  {
    var q := p.(ops := p.ops[x := op]);
    assert Placed(p, x);
    if Placed(q, x) {
      forall id | id in q.seen ensures Placed(q, id) {
        assert id != x ==> Placed(p, id);
      }
    }
  }

  /** A client's abort keeps the invariant exactly for operations that are being worked on or complete: an
      operation that waits in the work queue, or is in no queue, must not be aborted. */
  lemma AbortKeepsExactly<I>(p: Processor<I>, x: I, f: Fault)
    requires Invariant(p) && x in p.ops
    ensures Invariant(p.(ops := p.ops[x := Abort(p.ops[x], f)]))
       <==> InProgress(p.ops[x].state) || p.ops[x].state == Complete
  {
    assert Placed(p, x);
    SetFromOutside(p, x, Abort(p.ops[x], f));
  }

  /** A client's mark for requeueing keeps it exactly for operations that are idle, that is, for which no
      answer is owed. */
  lemma RequeueKeepsExactly<I>(p: Processor<I>, x: I)
    requires Invariant(p) && x in p.ops
    ensures Invariant(p.(ops := p.ops[x := MarkForRequeue(p.ops[x])])) <==> p.ops[x].state == Idle
    ensures p.ops[x].state == Idle <==> Owed(p.log, x) == 0
  {
    assert Placed(p, x);
    SetFromOutside(p, x, MarkForRequeue(p.ops[x]));
  }

  /** A random-number operation that is kept after a good run and is run again as it is: it faults for want of
      memory exactly if it owned its result, because wiping takes the length away with the buffer. */
  lemma SecondRunFaults(op: Op)
    requires op.rng && (op.state == Idle || op.state == Queued) && !WillFault(op)
    ensures var (done, code) := AdvanceRng(Begun(op));
      var (again, code') := AdvanceRng(Begun(Wiped(done).(state := Idle)));
      && code == NoFault && done.state == Complete
      && (code' == Mem <==> op.freesResult || !op.hasResult)
      && (code' != Mem ==> code' == NoFault && again == done)
  {
  }

  /** A poll is an advance of the work queue and one of the callback queue. */
  lemma PollParts<I>(p: Processor<I>, o: Outcome, answer: int)
    requires Invariant(p) && ValidOutcome(o)
    ensures HeadsKnown(p) && HeadsKnown(AdvanceCurrent(TakeJob(p), o))
    ensures Step(p, Poll(o, answer)) == AdvanceCallbacks(AdvanceCurrent(TakeJob(p), o), answer)
    ensures Invariant(Step(p, Poll(o, answer)))
  {
    StepKeeps(p, Poll(o, answer));
    assert Invariant(AdvanceWork(p, o));
  }

  ghost function Empty<I>(depth: nat): (p: Processor<I>)
    ensures Invariant(p) && p.log == [] && p.depth == depth
  {
    Processor(map[], depth, [], None, [], 0, 0, 0, {}, [])
  }

  ghost function Run<I>(p: Processor<I>, es: seq<Event<I>>): (q: Processor<I>)
    requires Invariant(p)
    ensures Invariant(q) && q.depth == p.depth
  {
    if es == [] then p
    else
      var q := Run(p, es[..|es| - 1]);
      StepKeeps(q, es[|es| - 1]);
      Step(q, es[|es| - 1])
  }

  // ----- what the steps add to the log

  /** From p to q the one note n was added to the log. */
  ghost predicate Adds<I>(p: Processor<I>, q: Processor<I>, n: Note<I>) {
    && q.log == p.log + [n] && q.seen == p.seen && n.id in p.seen
    && InFlight(q) == InFlight(p) + (if n.Accepted? then 1 else -1)
    && q.total == p.total + (if n.Finished? && !n.recycled then 1 else 0)
    && q.ops.Keys <= p.ops.Keys && |q.ops.Keys| + q.frees == |p.ops.Keys| + p.frees
    && 0 <= Owed(p.log, n.id) + Weight(n, n.id) <= 1
  }

  ghost predicate AddsNothing<I>(p: Processor<I>, q: Processor<I>) {
    && q.log == p.log && q.seen == p.seen && InFlight(q) == InFlight(p) && q.total == p.total
    && q.ops.Keys == p.ops.Keys && q.frees == p.frees
  }

  function InFlight<I>(p: Processor<I>): nat {
    |p.work| + |p.callbacks| + if p.current.Some? then 1 else 0
  }

  lemma QueueJobAdds<I>(p: Processor<I>, x: I, priority: int)
    requires Invariant(p) && x in p.ops
    ensures var q := QueueJob(p, x, priority).0; if p.ops[x].state == Idle then Adds(p, q, Accepted(x)) else q == p
  {
    assert Placed(p, x);
  }

  lemma FlushAdds<I>(p: Processor<I>, q: Processor<I>, x: I)
    requires x in p.ops && x in q.ops && InFlight(q) == InFlight(p) - 1 && Owed(p.log, x) == 1
    requires q.log == p.log && q.seen == p.seen && q.total == p.total && x in p.seen
    requires q.ops == p.ops && q.frees == p.frees
    ensures Adds(p, Flush(q, x), Finished(x, false))
  {
    ReclaimFrees(q.(ops := q.ops[x := Abort(q.ops[x], QueueFlush)]), x);
  }

  /** A freed operation is counted as freed. */
  lemma ReclaimFrees<I>(p: Processor<I>, x: I)
    requires x in p.ops
    ensures var q := Reclaim(p, x); q.ops.Keys <= p.ops.Keys && |q.ops.Keys| + q.frees == |p.ops.Keys| + p.frees
  {
    if !p.ops[x].keep {
      assert (p.ops - {x}).Keys == p.ops.Keys - {x};
    } else {
      assert p.ops[x := Wiped(p.ops[x]).(state := Idle)].Keys == p.ops.Keys;
    }
  }

  lemma AdvanceAddsNothing<I>(p: Processor<I>, o: Outcome)
    requires p.current.Some? ==> p.current.value in p.ops
    ensures AddsNothing(p, AdvanceCurrent(p, o))
  {
  }

  /** What the callback queue hands on before a recycled operation is queued again. */
  ghost function Called<I>(p: Processor<I>, answer: int): Processor<I>
    requires p.callbacks != [] && p.callbacks[0].data in p.ops
  {
    var x := p.callbacks[0].data;
    var again := p.ops[x].hasCallback && answer == RECYCLE;
    var q := p.(callbacks := p.callbacks[1..], log := p.log + [Finished(x, again)]);
    if again then q.(ops := p.ops[x := MarkForRequeue(p.ops[x])]) else Reclaim(q, x)
  }

  lemma CalledKeeps<I>(p: Processor<I>, answer: int)
    requires Invariant(p) && p.callbacks != []
    ensures Invariant(Called(p, answer))
  {
    var x := p.callbacks[0].data;
    var again := p.ops[x].hasCallback && answer == RECYCLE;
    var q := p.(callbacks := p.callbacks[1..]);
    Dropped(p);
    Noted(q, Finished(x, again));
    var r := q.(log := p.log + [Finished(x, again)]);
    if again {
      SetOp(r, x, MarkForRequeue(p.ops[x]));
      AllPlaced(r.(ops := p.ops[x := MarkForRequeue(p.ops[x])]), x);
    } else {
      ReclaimKeeps(r, x);
    }
  }

  lemma CalledNext<I>(p: Processor<I>, answer: int)
    requires p.callbacks != [] && p.callbacks[0].data in p.ops
    ensures var x, q := p.callbacks[0].data, Called(p, answer);
      AdvanceCallbacks(p, answer) == if p.ops[x].hasCallback && answer == RECYCLE then QueueJob(q, x, 0).0 else q
  {
  }

  lemma CalledAdds<I>(p: Processor<I>, answer: int)
    requires p.callbacks != [] && p.callbacks[0].data in p.ops && p.callbacks[0].data in p.seen
    requires Owed(p.log, p.callbacks[0].data) == 1
    ensures var x := p.callbacks[0].data;
      Adds(p, Called(p, answer), Finished(x, p.ops[x].hasCallback && answer == RECYCLE))
  {
    var x := p.callbacks[0].data;
    var again := p.ops[x].hasCallback && answer == RECYCLE;
    if again {
      assert p.ops[x := MarkForRequeue(p.ops[x])].Keys == p.ops.Keys;
    } else {
      ReclaimFrees(p.(callbacks := p.callbacks[1..], log := p.log + [Finished(x, again)]), x);
    }
  }

  // ----- submissions and answers alternate; nothing is lost

  function Taken<I>(log: seq<Note<I>>): nat {
    if log == [] then 0 else Taken(log[..|log| - 1]) + if log[|log| - 1].Accepted? then 1 else 0
  }

  function Recycles<I>(log: seq<Note<I>>): nat {
    if log == [] then 0
    else Recycles(log[..|log| - 1]) + if log[|log| - 1].Finished? && log[|log| - 1].recycled then 1 else 0
  }

  ghost predicate Accounted<I>(p: Processor<I>) {
    && Taken(p.log) == InFlight(p) + Recycles(p.log) + p.total
    && p.ops.Keys <= p.seen && |p.seen| == |p.ops.Keys| + p.frees
    && forall id :: id in p.seen ==> Alternating(p.log, id)
  }

  lemma AddsKeeps<I>(p: Processor<I>, q: Processor<I>, n: Note<I>)
    requires Accounted(p) && Adds(p, q, n)
    ensures Accounted(q)
  {
    assert q.log[..|p.log|] == p.log;
    forall id | id in q.seen ensures Alternating(q.log, id) {
      OwedSnoc(p.log, n, id);
      assert Alternating(p.log, id);
      OwedInRange(p.log, id);
    }
  }

  lemma OwedInRange<I>(log: seq<Note<I>>, id: I)
    requires Alternating(log, id)
    ensures 0 <= Owed(log, id) <= 1
  {
  }

  lemma CallbacksAccount<I>(p: Processor<I>, answer: int)
    requires Invariant(p) && Accounted(p)
    ensures Accounted(AdvanceCallbacks(p, answer))
  {
    if p.callbacks != [] {
      var x := p.callbacks[0].data;
      assert Placed(p, x);
      CalledKeeps(p, answer);
      CalledNext(p, answer);
      CalledAdds(p, answer);
      var q := Called(p, answer);
      var again := p.ops[x].hasCallback && answer == RECYCLE;
      AddsKeeps(p, q, Finished(x, again));
      if again {
        QueueJobAdds(q, x, 0);
        AddsKeeps(q, QueueJob(q, x, 0).0, Accepted(x));
      }
    }
  }

  lemma {:induction false} PurgeQueuedAccounts<I>(p: Processor<I>)
    requires Invariant(p) && Accounted(p)
    ensures Accounted(PurgeQueued(p))
    decreases |p.work|
  {
    if p.work != [] {
      var q, x := p.(work := p.work[1..]), p.work[0].data;
      Unqueued(p);
      FlushKeeps(q, x);
      FlushAdds(p, q, x);
      AddsKeeps(p, Flush(q, x), Finished(x, false));
      PurgeQueuedAccounts(Flush(q, x));
    }
  }

  lemma PurgeCurrentAccounts<I>(p: Processor<I>)
    requires Invariant(p) && Accounted(p)
    ensures Accounted(PurgeCurrent(p))
  {
    if p.current.Some? {
      var x := p.current.value;
      assert Placed(p, x);
      FlushAdds(p, p.(current := None), x);
      AddsKeeps(p, PurgeCurrent(p), Finished(x, false));
    }
  }

  lemma SubmitAccounts<I>(p: Processor<I>, x: I, priority: int)
    requires Invariant(p) && Accounted(p) && x in p.ops
    ensures Accounted(QueueJob(p, x, priority).0)
  {
    QueueJobAdds(p, x, priority);
    if p.ops[x].state == Idle {
      AddsKeeps(p, QueueJob(p, x, priority).0, Accepted(x));
    }
  }

  lemma CreateAccounts<I>(p: Processor<I>, x: I, op: Op)
    requires Invariant(p) && Accounted(p) && x !in p.seen
    ensures Accounted(p.(ops := p.ops[x := op], seen := p.seen + {x}))
  {
    AlternatingNone(p.log, x);
  }

  lemma PollAccounts<I>(p: Processor<I>, o: Outcome, answer: int)
    requires Invariant(p) && Accounted(p) && ValidOutcome(o)
    ensures Accounted(AdvanceCallbacks(AdvanceWork(p, o), answer))
  {
    var t := TakeJob(p);
    TakeJobKeeps(p);
    AdvanceAddsNothing(t, o);
    var q := AdvanceWork(p, o);
    assert AddsNothing(p, t) && AddsNothing(t, q);
    CallbacksAccount(q, answer);
  }

  lemma StepAccounts<I>(p: Processor<I>, e: Event<I>)
    requires Invariant(p) && Accounted(p)
    ensures Accounted(Step(p, e))
  {
    if Possible(p, e) {
      match e
      case Create(id, op) => CreateAccounts(p, id, op);
      case Submit(id, priority) => SubmitAccounts(p, id, priority);
      case Poll(o, answer) => PollAccounts(p, o, answer);
      case DropCurrent => PurgeCurrentAccounts(p);
      case DropQueued => PurgeQueuedAccounts(p);
    }
  }

  /** In every run from an empty processor nothing is lost and nothing is done twice.  What was taken
      is in flight, was recycled, or was reclaimed and counted.  An operation is in exactly as many
      places as answers to it are owed, one or none; its submissions and answers alternate, and the
      work queue is never longer than its bound.  An operation that is gone was freed, once. */
  lemma OneAnswerEach<I>(depth: nat, es: seq<Event<I>>, id: I)
    ensures var p := Run(Empty<I>(depth), es);
      && Taken(p.log) == InFlight(p) + Recycles(p.log) + p.total
      && |p.seen| == |p.ops.Keys| + p.frees
      && Owed(p.log, id) == Places(p, id) <= 1
      && Alternating(p.log, id)
      && |p.work| <= depth
  {
    var p := Run(Empty<I>(depth), es);
    RunAccounts(Empty<I>(depth), es);
    if id !in p.seen {
      HoldsNone(p.work, id);
      HoldsNone(p.callbacks, id);
      OwedNone(p.log, id);
      AlternatingNone(p.log, id);
    } else {
      assert Placed(p, id);
    }
  }

  lemma {:induction false} RunAccounts<I>(p: Processor<I>, es: seq<Event<I>>)
    requires Invariant(p) && Accounted(p)
    ensures Accounted(Run(p, es))
  {
    if es != [] {
      RunAccounts(p, es[..|es| - 1]);
      StepAccounts(Run(p, es[..|es| - 1]), es[|es| - 1]);
    }
  }
}
