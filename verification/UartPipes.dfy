/** Two adapters in a row: a caller's buffer, the first transmit ring, a line to a receive ring, the
    ring of the adapter downstream, and what has left that. */
module UartPipes {
  import opened Basics
  import opened Fragments

  /** a, b, c: first transmit ring, receive ring, downstream transmit ring. */
  datatype Pipe = Pipe(pending: Bytes, a: Bytes, b: Bytes, c: Bytes, out: Bytes)

  datatype Capacity = Capacity(a: nat, b: nat, c: nat)

  datatype Event =
    | Offer(s: Bytes)     // the caller adds to its buffer
    | Push                // the buffer is pushed into the first ring
    | Line(n: nat)        // the hardware moves up to n bytes over
    | Relay               // received bytes are pushed downstream
    | Drain(n: nat)       // the hardware takes up to n bytes out

  /** How many bytes go from one ring to the next. */
  function Share(n: nat, from: Bytes, to: Bytes, cap: nat): (k: nat)
    requires |to| <= cap
    ensures k <= |from| && |to| + k <= cap
  {
    Min(n, Min(|from|, cap - |to|))
  }

  ghost predicate InBounds(p: Pipe, m: Capacity) {
    |p.a| <= m.a && |p.b| <= m.b && |p.c| <= m.c
  }

  ghost function Step(p: Pipe, m: Capacity, e: Event): (q: Pipe)
    requires InBounds(p, m)
    ensures InBounds(q, m)
  {
    match e
    case Offer(s) => p.(pending := p.pending + s)
    case Push => var k := Share(|p.pending|, p.pending, p.a, m.a);
     p.(pending := p.pending[k..], a := p.a + p.pending[..k])
    case Line(n) => var k := Share(n, p.a, p.b, m.b); p.(a := p.a[k..], b := p.b + p.a[..k])
    case Relay => var k := Share(|p.b|, p.b, p.c, m.c); p.(b := p.b[k..], c := p.c + p.b[..k])
    case Drain(n) => var k := Min(n, |p.c|); p.(c := p.c[k..], out := p.out + p.c[..k])
  }

  /** Everything from the first byte out to the last byte not yet pushed. */
  function Stream(p: Pipe): Bytes {
    p.out + (p.c + (p.b + (p.a + p.pending)))
  }

  function Offered(es: seq<Event>): Bytes {
    if es == [] then [] else Offered(es[..|es| - 1]) + if es[|es| - 1].Offer? then es[|es| - 1].s else []
  }

  ghost function Run(p: Pipe, m: Capacity, es: seq<Event>): (q: Pipe)
    requires InBounds(p, m)
    ensures InBounds(q, m)
  {
    if es == [] then p else Step(Run(p, m, es[..|es| - 1]), m, es[|es| - 1])
  }

  /** Moving the first k elements of the second sequence to the end of the first. */
  lemma MoveOver<T>(x: seq<T>, y: seq<T>, k: nat)
    requires k <= |y|
    ensures (x + y[..k]) + y[k..] == x + y
  {
  }

  lemma StepConserves(p: Pipe, m: Capacity, e: Event)
    requires InBounds(p, m)
    ensures Stream(Step(p, m, e)) == Stream(p) + if e.Offer? then e.s else []
  {
    match e
    case Offer(s) =>
      Associative(p.a, p.pending, s);
      Associative(p.b, p.a + p.pending, s);
      Associative(p.c, p.b + (p.a + p.pending), s);
      Associative(p.out, p.c + (p.b + (p.a + p.pending)), s);
    case Push => MoveOver(p.a, p.pending, Share(|p.pending|, p.pending, p.a, m.a));
    case Line(n) => MoveBetween(p.b, p.a, p.pending, Share(n, p.a, p.b, m.b));
    case Relay => MoveBetween(p.c, p.b, p.a + p.pending, Share(|p.b|, p.b, p.c, m.c));
    case Drain(n) => MoveBetween(p.out, p.c, p.b + (p.a + p.pending), Min(n, |p.c|));
  }

  lemma MoveBetween<T>(x: seq<T>, y: seq<T>, z: seq<T>, k: nat)
    requires k <= |y|
    ensures (x + y[..k]) + (y[k..] + z) == x + (y + z)
  {
    Associative(x + y[..k], y[k..], z);
    MoveOver(x, y, k);
    Associative(x, y, z);
  }

  /** Over every run no byte is lost, doubled or moved out of order. */
  lemma {:induction false} RunConserves(p: Pipe, m: Capacity, es: seq<Event>)
    requires InBounds(p, m)
    ensures Stream(Run(p, m, es)) == Stream(p) + Offered(es)
  {
    if es != [] {
      var e := es[|es| - 1];
      RunConserves(p, m, es[..|es| - 1]);
      StepConserves(Run(p, m, es[..|es| - 1]), m, e);
      Associative(Stream(p), Offered(es[..|es| - 1]), if e.Offer? then e.s else []);
    }
  }

  // ----- everything comes out

  /** What is still to be moved, counted in moves. */
  function Work(p: Pipe): nat {
    4 * |p.pending| + 3 * |p.a| + 2 * |p.b| + |p.c|
  }

  /** The stages from the far end, each as far as it goes. */
  function Stage(m: Capacity, k: nat): Event {
    match k
    case 0 => Drain(m.c)
    case 1 => Relay
    case 2 => Line(m.a)
    case _ => Push
  }

  /** The first k stages of a cycle of four. */
  ghost function Stages(p: Pipe, m: Capacity, k: nat): (q: Pipe)
    requires InBounds(p, m)
    ensures InBounds(q, m)
  {
    if k == 0 then p else Step(Stages(p, m, k - 1), m, Stage(m, k - 1))
  }

  /** From p to q no work was made; none was done only if nothing changed, which means that the stage
      had nothing to move or no room for it. */
  ghost predicate Worked(p: Pipe, q: Pipe, m: Capacity, k: nat) {
    && Stream(q) == Stream(p) && Work(q) <= Work(p) && (Work(q) == Work(p) ==> q == p)
    && (Work(q) == Work(p) ==>
          match k
          case 0 => p.c == []
          case 1 => p.b == [] || p.c != []
          case 2 => p.a == [] || p.b != []
          case _ => p.pending == [] || p.a != [])
  }

  lemma StageWorks(p: Pipe, m: Capacity, k: nat)
    requires InBounds(p, m) && k < 4 && 0 < m.a && 0 < m.b && 0 < m.c
    ensures Worked(p, Step(p, m, Stage(m, k)), m, k)
  {
    StepConserves(p, m, Stage(m, k));
    assert Stream(p) + [] == Stream(p);
    StageIdle(p, m, k);
  }

  lemma StageIdle(p: Pipe, m: Capacity, k: nat)
    requires InBounds(p, m) && k < 4
    ensures Work(Step(p, m, Stage(m, k))) == Work(p) ==> Step(p, m, Stage(m, k)) == p
  {
  }

  lemma FourStages(p: Pipe, p1: Pipe, p2: Pipe, p3: Pipe, p4: Pipe, m: Capacity)
    requires Worked(p, p1, m, 0) && Worked(p1, p2, m, 1) && Worked(p2, p3, m, 2) && Worked(p3, p4, m, 3)
    ensures Stream(p4) == Stream(p) && (Work(p4) < Work(p) || Work(p) == 0 == Work(p4))
  {
  }

  /** A whole cycle does some work, if there is any. */
  lemma CycleWorks(p: Pipe, m: Capacity)
    requires InBounds(p, m) && 0 < m.a && 0 < m.b && 0 < m.c
    ensures Work(Stages(p, m, 4)) < Work(p) || Work(p) == 0 == Work(Stages(p, m, 4))
    ensures Stream(Stages(p, m, 4)) == Stream(p)
  {
    var p1, p2, p3, p4 := Stages(p, m, 1), Stages(p, m, 2), Stages(p, m, 3), Stages(p, m, 4);
    NextStage(p, m, 0);
    NextStage(p, m, 1);
    NextStage(p, m, 2);
    NextStage(p, m, 3);
    FourStages(p, p1, p2, p3, p4, m);
  }

  lemma NextStage(p: Pipe, m: Capacity, k: nat)
    requires InBounds(p, m) && k < 4 && 0 < m.a && 0 < m.b && 0 < m.c
    ensures Worked(Stages(p, m, k), Stages(p, m, k + 1), m, k)
  {
    StageWorks(Stages(p, m, k), m, k);
  }

  ghost function Cycles(p: Pipe, m: Capacity, n: nat): (q: Pipe)
    requires InBounds(p, m)
    ensures InBounds(q, m)
  {
    if n == 0 then p else Stages(Cycles(p, m, n - 1), m, 4)
  }

  lemma {:induction false} CyclesWork(p: Pipe, m: Capacity, n: nat)
    requires InBounds(p, m) && 0 < m.a && 0 < m.b && 0 < m.c
    ensures Work(Cycles(p, m, n)) == 0 || Work(Cycles(p, m, n)) + n <= Work(p)
    ensures Stream(Cycles(p, m, n)) == Stream(p)
  {
    if n != 0 {
      CyclesWork(p, m, n - 1);
      CycleWorks(Cycles(p, m, n - 1), m);
    }
  }

  lemma AllOut(p: Pipe)
    requires Work(p) == 0
    ensures p == Pipe([], [], [], [], Stream(p))
  {
    assert p.pending == [] && p.a == [] && p.b == [] && p.c == [];
  }

  /** With rings of any size the pipe never stalls: after at most as many cycles as there is work, the
      whole stream has come out, in order. */
  lemma EverythingComesOut(p: Pipe, m: Capacity, n: nat)
    requires InBounds(p, m) && 0 < m.a && 0 < m.b && 0 < m.c && n >= Work(p)
    ensures Cycles(p, m, n) == Pipe([], [], [], [], Stream(p))
  {
    CyclesWork(p, m, n);
    AllOut(Cycles(p, m, n));
  }
}
