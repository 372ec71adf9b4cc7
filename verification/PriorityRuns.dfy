/** Runs of a priority queue: any mix of insertions, changes of priority, recyclings and removals. */
module PriorityRuns {
  import opened Priorities

  datatype Event<T> =
    | Inserting(e: Entry<T>)
    | InsertingIfAbsent(e: Entry<T>)
    | Changing(x: T, delta: int)
    | Recycling
    | Dequeuing

  /** What an event makes of the queue. */
  ghost function Next<T>(s: seq<Entry<T>>, ev: Event<T>): seq<Entry<T>> {
    match ev
    case Inserting(e) => Insert(s, e)
    case InsertingIfAbsent(e) => if e.data in Data(s) then s else Insert(s, e)
    case Changing(x, delta) => InsertAll(Changed(s, x, delta))
    case Recycling => Recycled(s)
    case Dequeuing => if s == [] then s else s[1..]
  }

  /** The first entry with the data has another priority, and the sequence is as it was otherwise. */
  function Changed<T(==)>(s: seq<Entry<T>>, x: T, delta: int): (t: seq<Entry<T>>)
    ensures |t| == |s|
    ensures forall i :: 0 <= i < |s| ==>
      t[i] == Entry(s[i].data, s[i].priority + if i == Find(s, x) then delta else 0)
  {
    var k := Find(s, x);
    if k < |s| then WithPriority(s, k, s[k].priority + delta) else s
  }

  /** The entry that an event brings in, and the one whose data it returns for good. */
  ghost function Brought<T>(s: seq<Entry<T>>, ev: Event<T>): seq<Entry<T>> {
    if ev.Inserting? || (ev.InsertingIfAbsent? && ev.e.data !in Data(s)) then [ev.e] else []
  }

  ghost function Returned<T>(s: seq<Entry<T>>, ev: Event<T>): seq<Entry<T>> {
    if ev.Dequeuing? && s != [] then [s[0]] else []
  }

  ghost function Run<T>(s: seq<Entry<T>>, es: seq<Event<T>>): seq<Entry<T>> {
    if es == [] then s else Next(Run(s, es[..|es| - 1]), es[|es| - 1])
  }

  ghost function AllBrought<T>(s: seq<Entry<T>>, es: seq<Event<T>>): seq<Entry<T>> {
    if es == [] then []
    else
      var rest := es[..|es| - 1];
      AllBrought(s, rest) + Brought(Run(s, rest), es[|es| - 1])
  }

  ghost function AllReturned<T>(s: seq<Entry<T>>, es: seq<Event<T>>): seq<Entry<T>> {
    if es == [] then []
    else
      var rest := es[..|es| - 1];
      AllReturned(s, rest) + Returned(Run(s, rest), es[|es| - 1])
  }

  /** What the sort after a change of priority leaves is what the event means. */
  lemma ChangeIsNext<T>(s: seq<Entry<T>>, t: seq<Entry<T>>, x: T, delta: int)
    requires StableSortOf(t, Changed(s, x, delta))
    ensures t == Next(s, Changing(x, delta))
  {
    InsertAllSorts(Changed(s, x, delta));
    StableSortUnique(t, InsertAll(Changed(s, x, delta)));
  }

  // ----- nothing is lost and nothing is made up

  /** The data of entries, whatever their order and priorities. */
  ghost function Bag<T>(s: seq<Entry<T>>): multiset<T> {
    multiset(Data(s))
  }

  lemma {:induction false} BagConcat<T>(s: seq<Entry<T>>, t: seq<Entry<T>>)
    ensures Bag(s + t) == Bag(s) + Bag(t)
  {
    assert Data(s + t) == Data(s) + Data(t);
  }

  lemma DataOfInsert<T>(s: seq<Entry<T>>, e: Entry<T>)
    ensures Bag(Insert(s, e)) == Bag(s) + multiset{e.data}
  {
    var k := Leading(s, e.priority);
    var d := Data(s);
    assert Data(Insert(s, e)) == d[..k] + [e.data] + d[k..];
    assert d == d[..k] + d[k..];
  }

  lemma {:induction false} DataOfInsertAll<T>(log: seq<Entry<T>>)
    ensures Bag(InsertAll(log)) == Bag(log)
  {
    if log == [] {
      assert Data(InsertAll(log)) == Data(log);
    } else {
      var l, e := log[..|log| - 1], log[|log| - 1];
      DataOfInsertAll(l);
      DataOfInsert(InsertAll(l), e);
      assert Data(log) == Data(l) + [e.data];
    }
  }

  /** An event keeps the order, and what it returns and leaves is what was there and what it brings. */
  ghost predicate Keeps<T>(s: seq<Entry<T>>, ev: Event<T>) {
    && Sorted(Next(s, ev))
    && Bag(Next(s, ev)) + Bag(Returned(s, ev)) == Bag(s) + Bag(Brought(s, ev))
  }

  lemma NextKeeps<T>(s: seq<Entry<T>>, ev: Event<T>)
    requires Sorted(s)
    ensures Keeps(s, ev)
  {
    match ev
    case Inserting(e) => InsertKeeps(s, e);
    case InsertingIfAbsent(e) => InsertKeeps(s, e);
    case Changing(x, delta) => ChangeKeeps(s, x, delta);
    case Recycling =>
      RecycleKeepsSorted(s);
      RotateData(s);
    case Dequeuing => DequeueKeeps(s);
  }

  lemma InsertKeeps<T>(s: seq<Entry<T>>, e: Entry<T>)
    requires Sorted(s)
    ensures Keeps(s, Inserting(e)) && Keeps(s, InsertingIfAbsent(e))
  {
    InsertIsStable(s, e);
    DataOfInsert(s, e);
  }

  lemma ChangeKeeps<T>(s: seq<Entry<T>>, x: T, delta: int)
    ensures Keeps(s, Changing(x, delta))
  {
    var u := Changed(s, x, delta);
    InsertAllSorts(u);
    DataOfInsertAll(u);
    assert Data(u) == Data(s);
  }

  lemma DequeueKeeps<T>(s: seq<Entry<T>>)
    requires Sorted(s)
    ensures Keeps(s, Dequeuing)
  {
    if s != [] {
      BagConcat([s[0]], s[1..]);
      assert s == [s[0]] + s[1..];
    }
  }

  lemma RotateData<T>(s: seq<Entry<T>>)
    ensures Bag(Recycled(s)) == Bag(s)
  {
    if |s| > 1 {
      assert Data(Recycled(s)) == Data(s)[1..] + [Data(s)[0]];
      assert Data(s) == [Data(s)[0]] + Data(s)[1..];
    }
  }

  /** In every run from an empty queue the queue is sorted, and what has been returned and what is still there
      is what was brought in. */
  lemma {:induction false} RunKeeps<T>(es: seq<Event<T>>)
    ensures Sorted(Run([], es))
    ensures Bag(Run([], es)) + Bag(AllReturned([], es)) == Bag(AllBrought([], es))
  {
    var none: seq<Entry<T>> := [];
    if es == [] {
      assert Data(none) == [];
    } else {
      var rest, ev := es[..|es| - 1], es[|es| - 1];
      RunKeeps(rest);
      NextKeeps(Run(none, rest), ev);
      BagConcat(AllReturned(none, rest), Returned(Run(none, rest), ev));
      BagConcat(AllBrought(none, rest), Brought(Run(none, rest), ev));
      Balance(Bag(Run(none, es)), Bag(Returned(Run(none, rest), ev)), Bag(Run(none, rest)),
              Bag(Brought(Run(none, rest), ev)),
              Bag(AllReturned(none, rest)), Bag(AllBrought(none, rest)));
    }
  }

  lemma Balance<T>(now: multiset<T>, r: multiset<T>, before: multiset<T>,
                   b: multiset<T>, rs: multiset<T>, bs: multiset<T>)
    requires now + r == before + b && before + rs == bs
    ensures now + (rs + r) == bs + b
  {
    assert now + (rs + r) == (now + r) + rs == (before + b) + rs == (before + rs) + b;
  }

  // ----- first in, first out among equals

  /** Only insertions and removals. */
  ghost predicate Plain<T>(es: seq<Event<T>>) {
    forall i :: 0 <= i < |es| ==> !es[i].Changing? && !es[i].Recycling?
  }

  /** In every run of insertions and removals the entries of each priority come out in the order in which they
      came in, however the two are mixed: those returned, and then those still there, are those brought in. */
  lemma {:induction false} FirstInFirstOut<T>(es: seq<Event<T>>, p: int)
    requires Plain(es)
    ensures Class(AllReturned([], es), p) + Class(Run([], es), p) == Class(AllBrought([], es), p)
  {
    if es != [] {
      var rest, ev := es[..|es| - 1], es[|es| - 1];
      FirstInFirstOut(rest, p);
      RunKeeps(rest);
      var s := Run([], rest);
      NextInOrder(s, ev, p);
      ClassConcat(AllReturned([], rest), Returned(s, ev), p);
      ClassConcat(AllBrought([], rest), Brought(s, ev), p);
      Queue(Class(AllReturned([], rest), p), Class(Returned(s, ev), p), Class(Next(s, ev), p),
            Class(s, p), Class(Brought(s, ev), p));
    }
  }

  lemma Queue<T>(out: seq<T>, r: seq<T>, left: seq<T>, there: seq<T>, b: seq<T>)
    requires r + left == there + b
    ensures (out + r) + left == (out + there) + b
  {
    assert (out + r) + left == out + (r + left) == out + (there + b);
  }

  lemma NextInOrder<T>(s: seq<Entry<T>>, ev: Event<T>, p: int)
    requires Sorted(s) && !ev.Changing? && !ev.Recycling?
    ensures Class(Returned(s, ev), p) + Class(Next(s, ev), p) == Class(s, p) + Class(Brought(s, ev), p)
  {
    match ev
    case Dequeuing =>
      if s != [] {
        ClassOfOne(s[0], p);
      }
    case Inserting(e) =>
      InsertIsStable(s, e);
      ClassOfOne(e, p);
    case InsertingIfAbsent(e) =>
      InsertIsStable(s, e);
      ClassOfOne(e, p);
    case _ =>
  }

  // ----- draining

  ghost function Dequeues<T>(n: nat): (es: seq<Event<T>>)
    ensures |es| == n && forall i :: 0 <= i < n ==> es[i] == Dequeuing
  {
    seq(n, i => Dequeuing)
  }

  /** n removals return the first n entries in order and leave the rest. */
  lemma {:induction false} DequeuesTake<T>(s: seq<Entry<T>>, n: nat)
    requires n <= |s|
    ensures Run(s, Dequeues(n)) == s[n..] && AllReturned(s, Dequeues(n)) == s[..n]
  {
    if n == 0 {
      assert Dequeues<T>(0) == [];
    } else {
      DequeuesTake(s, n - 1);
      assert Dequeues<T>(n)[..n - 1] == Dequeues<T>(n - 1);
      assert s[n - 1..][1..] == s[n..];
      assert s[..n] == s[..n - 1] + [s[n - 1]];
    }
  }

  lemma {:induction false} RunConcat<T>(s: seq<Entry<T>>, a: seq<Event<T>>, b: seq<Event<T>>)
    ensures Run(s, a + b) == Run(Run(s, a), b)
    ensures AllReturned(s, a + b) == AllReturned(s, a) + AllReturned(Run(s, a), b)
    decreases |b|
  {
    if b == [] {
      assert a + b == a;
    } else {
      var c := b[..|b| - 1];
      RunConcat(s, a, c);
      assert (a + b)[..|a + b| - 1] == a + c;
    }
  }

  /** After any run, as many removals as there are entries return the entries of the queue in order, the first
      of equal priority first, and leave nothing; the queue being sorted, priorities fall. */
  lemma DrainReturnsAll<T>(es: seq<Event<T>>)
    ensures var s := Run([], es); var all := es + Dequeues(|s|);
      Sorted(s) && Run([], all) == [] && AllReturned([], all) == AllReturned([], es) + s
    ensures Bag(AllReturned([], es + Dequeues(|Run([], es)|))) == Bag(AllBrought([], es))
  {
    var s := Run([], es);
    RunKeeps(es);
    DequeuesTake(s, |s|);
    RunConcat([], es, Dequeues(|s|));
    assert s[..|s|] == s;
    BagConcat(AllReturned([], es), s);
  }

  ghost function Insertions<T>(log: seq<Entry<T>>): (es: seq<Event<T>>)
    ensures |es| == |log| && forall i :: 0 <= i < |log| ==> es[i] == Inserting(log[i])
  {
    seq(|log|, i requires 0 <= i < |log| => Inserting(log[i]))
  }

  lemma {:induction false} InsertionsInsertAll<T>(log: seq<Entry<T>>)
    ensures Run([], Insertions(log)) == InsertAll(log) && AllReturned([], Insertions(log)) == []
  {
    if log == [] {
      assert Insertions(log) == [];
    } else {
      var l := log[..|log| - 1];
      InsertionsInsertAll(l);
      assert Insertions(log)[..|log| - 1] == Insertions(l);
    }
  }

  /** Inserting and then draining returns a stable descending sort of what was inserted. */
  lemma DrainIsStableSort<T>(log: seq<Entry<T>>) returns (t: seq<Entry<T>>)
    ensures StableSortOf(t, log) && AllReturned([], Insertions(log) + Dequeues(|t|)) == t
  {
    t := InsertAll(log);
    InsertAllSorts(log);
    InsertionsInsertAll(log);
    DrainReturnsAll(Insertions(log));
    assert [] + t == t;
  }
}
