/** Sequences of prioritised entries: what the operations of the priority queue mean. */
module Priorities {
  import opened Basics

  datatype Entry<T> = Entry(data: T, priority: int)

  ghost predicate Sorted<T>(s: seq<Entry<T>>) {
    forall i, j :: 0 <= i < j < |s| ==> s[i].priority >= s[j].priority
  }

  /** The entries of priority p, in order. */
  ghost function Class<T>(s: seq<Entry<T>>, p: int): seq<Entry<T>> {
    if s == [] then []
    else if s[0].priority == p then [s[0]] + Class(s[1..], p)
    else Class(s[1..], p)
  }

  /** Descending, and equal priorities keep their order. */
  ghost predicate StableSortOf<T>(t: seq<Entry<T>>, s: seq<Entry<T>>) {
    Sorted(t) && forall p :: Class(t, p) == Class(s, p)
  }

  /** How many leading entries have at least priority p. */
  function Leading<T>(s: seq<Entry<T>>, p: int): (k: nat)
    ensures k <= |s| && (k < |s| ==> s[k].priority < p)
    ensures forall i :: 0 <= i < k ==> s[i].priority >= p
  {
    if s == [] || s[0].priority < p then 0 else 1 + Leading(s[1..], p)
  }

  lemma LeadingUnique<T>(s: seq<Entry<T>>, p: int, k: nat)
    requires k <= |s| && (k < |s| ==> s[k].priority < p)
    requires forall i :: 0 <= i < k ==> s[i].priority >= p
    ensures k == Leading(s, p)
  {
    var l := Leading(s, p);
    assert !(k < l) && !(l < k);
  }

  /** e put in at position k. */
  function InsertAt<T>(s: seq<T>, k: nat, e: T): (t: seq<T>)
    requires k <= |s|
    ensures |t| == |s| + 1
    ensures forall i :: 0 <= i < |t| ==> t[i] == if i < k then s[i] else if i == k then e else s[i - 1]
  {
    seq(|s| + 1, i requires 0 <= i < |s| + 1 => if i < k then s[i] else if i == k then e else s[i - 1])
  }

  /** The element at position k taken out. */
  function RemoveAt<T>(s: seq<T>, k: nat): (t: seq<T>)
    requires k < |s|
    ensures |t| == |s| - 1
    ensures forall i :: 0 <= i < |t| ==> t[i] == if i < k then s[i] else s[i + 1]
  {
    seq(|s| - 1, i requires 0 <= i < |s| - 1 => if i < k then s[i] else s[i + 1])
  }

  lemma InsertAtConcat<T>(s: seq<T>, k: nat, e: T)
    requires k <= |s|
    ensures InsertAt(s, k, e) == s[..k] + [e] + s[k..]
  {
  }

  function Insert<T>(s: seq<Entry<T>>, e: Entry<T>): seq<Entry<T>> {
    InsertAt(s, Leading(s, e.priority), e)
  }

  // ----- priority classes

  lemma {:induction false} ClassConcat<T>(s: seq<Entry<T>>, t: seq<Entry<T>>, p: int)
    ensures Class(s + t, p) == Class(s, p) + Class(t, p)
  {
    if s == [] {
      assert s + t == t;
    } else {
      ClassConcat(s[1..], t, p);
      assert (s + t)[1..] == s[1..] + t;
    }
  }

  lemma {:induction false} ClassEmpty<T>(s: seq<Entry<T>>, p: int)
    requires forall i :: 0 <= i < |s| ==> s[i].priority != p
    ensures Class(s, p) == []
  {
    if s != [] {
      ClassEmpty(s[1..], p);
    }
  }

  lemma {:induction false} ClassMembers<T>(s: seq<Entry<T>>, p: int)
    ensures forall e :: e in Class(s, p) <==> e in s && e.priority == p
  {
    if s != [] {
      ClassMembers(s[1..], p);
    }
  }

  /** A stable sort is determined by what is sorted. */
  lemma {:induction false} StableSortUnique<T>(s: seq<Entry<T>>, t: seq<Entry<T>>)
    requires Sorted(s) && Sorted(t) && forall p :: Class(s, p) == Class(t, p)
    ensures s == t
    decreases |s|
  {
    if s == [] {
      if t != [] {
        HeadsAgree(t, s);
      }
    } else {
      HeadsAgree(s, t);
      forall p ensures Class(s[1..], p) == Class(t[1..], p) {
        assert Class(s, p) == Class(t, p);
        assert s[0].priority == p ==> Class(s, p)[1..] == Class(s[1..], p) && Class(t, p)[1..] == Class(t[1..], p);
      }
      StableSortUnique(s[1..], t[1..]);
      assert s == [s[0]] + s[1..] && t == [t[0]] + t[1..];
    }
  }

  lemma HeadsAgree<T>(s: seq<Entry<T>>, t: seq<Entry<T>>)
    requires Sorted(s) && Sorted(t) && s != [] && forall p :: Class(s, p) == Class(t, p)
    ensures t != [] && s[0] == t[0]
  {
    var p := s[0].priority;
    ClassMembers(t, p);
    assert s[0] in Class(s, p) && s[0] in Class(t, p);
    var q := t[0].priority;
    ClassMembers(s, q);
    assert t[0] in Class(t, q) && t[0] in Class(s, q);
    assert p == q;
    assert Class(s, p)[0] == s[0] && Class(t, p)[0] == t[0];
  }

  // ----- insertion

  lemma InsertClass<T>(s: seq<Entry<T>>, e: Entry<T>, p: int)
    requires Sorted(s)
    ensures Class(Insert(s, e), p) == if p == e.priority then Class(s, p) + [e] else Class(s, p)
  {
    var k := Leading(s, e.priority);
    InsertAtConcat(s, k, e);
    ClassAround(s[..k], e, s[k..], p);
    assert s == s[..k] + s[k..];
    ClassConcat(s[..k], s[k..], p);
    if p == e.priority {
      LowerAfterLeading(s, p);
      ClassEmpty(s[k..], p);
    }
    LastOfClass(Class(s[..k], p), if p == e.priority then [e] else [], Class(s[k..], p));
  }

  lemma LastOfClass<T>(h: seq<T>, m: seq<T>, l: seq<T>)
    requires m == [] || l == []
    ensures h + m + l == (h + l) + m
  {
  }

  lemma LowerAfterLeading<T>(s: seq<Entry<T>>, p: int)
    requires Sorted(s)
    ensures var lo := s[Leading(s, p)..]; forall i :: 0 <= i < |lo| ==> lo[i].priority < p
  {
  }

  lemma ClassAround<T>(hi: seq<Entry<T>>, e: Entry<T>, lo: seq<Entry<T>>, p: int)
    ensures Class(hi + [e] + lo, p) == Class(hi, p) + (if p == e.priority then [e] else []) + Class(lo, p)
  {
    ClassConcat(hi + [e], lo, p);
    ClassConcat(hi, [e], p);
    ClassOfOne(e, p);
  }

  lemma ClassOfOne<T>(e: Entry<T>, p: int)
    ensures Class([e], p) == if p == e.priority then [e] else []
  {
    assert [e][1..] == [];
  }

  /** Insertion keeps the order and puts the new entry last in its class. */
  lemma InsertIsStable<T>(s: seq<Entry<T>>, e: Entry<T>)
    requires Sorted(s)
    ensures Sorted(Insert(s, e))
    ensures forall p :: Class(Insert(s, e), p) == if p == e.priority then Class(s, p) + [e] else Class(s, p)
  {
    forall p ensures Class(Insert(s, e), p) == if p == e.priority then Class(s, p) + [e] else Class(s, p) {
      InsertClass(s, e, p);
    }
  }

  ghost function InsertAll<T>(log: seq<Entry<T>>): seq<Entry<T>> {
    if log == [] then [] else Insert(InsertAll(log[..|log| - 1]), log[|log| - 1])
  }

  /** Inserting one by one and draining is a stable descending sort. */
  lemma {:induction false} InsertAllSorts<T>(log: seq<Entry<T>>)
    ensures StableSortOf(InsertAll(log), log)
  {
    if log != [] {
      var l, e := log[..|log| - 1], log[|log| - 1];
      InsertAllSorts(l);
      InsertIsStable(InsertAll(l), e);
      assert log == l + [e];
      forall p ensures Class(InsertAll(log), p) == Class(log, p) {
        ClassConcat(l, [e], p);
        ClassOfOne(e, p);
      }
    }
  }

  // ----- moving an entry forward, and the inversion count

  ghost function CountAbove<T>(s: seq<Entry<T>>, p: int): nat {
    if s == [] then 0 else (if s[0].priority > p then 1 else 0) + CountAbove(s[1..], p)
  }

  /** The number of pairs that are out of order. */
  ghost function Inversions<T>(s: seq<Entry<T>>): nat {
    if s == [] then 0 else CountAbove(s[1..], s[0].priority) + Inversions(s[1..])
  }

  function SwapNext<T>(s: seq<T>, a: nat): (t: seq<T>)
    requires a + 1 < |s|
    ensures |t| == |s|
  {
    s[a := s[a + 1]][a + 1 := s[a]]
  }

  lemma {:induction false} SwapCounts<T>(s: seq<Entry<T>>, a: nat, p: int)
    requires a + 1 < |s|
    ensures CountAbove(SwapNext(s, a), p) == CountAbove(s, p)
    decreases a
  {
    if a == 0 {
      TwoHeads(s);
    } else {
      SwapCounts(s[1..], a - 1, p);
      assert SwapNext(s, a) == [s[0]] + SwapNext(s[1..], a - 1);
    }
  }

  lemma TwoHeads<T>(s: seq<Entry<T>>)
    requires |s| >= 2
    ensures SwapNext(s, 0) == [s[1]] + ([s[0]] + s[2..]) && s == [s[0]] + ([s[1]] + s[2..])
    ensures s[1..] == [s[1]] + s[2..] && SwapNext(s, 0)[1..] == [s[0]] + s[2..]
    ensures s[1..][1..] == s[2..] && SwapNext(s, 0)[1..][1..] == s[2..]
  {
  }

  /** Swapping neighbours that are out of order removes exactly one inversion, and no class sees it. */
  lemma {:induction false} SwapRemovesInversion<T>(s: seq<Entry<T>>, a: nat)
    requires a + 1 < |s| && s[a].priority < s[a + 1].priority
    ensures Inversions(SwapNext(s, a)) == Inversions(s) - 1
    ensures forall p :: Class(SwapNext(s, a), p) == Class(s, p)
    decreases a
  {
    if a == 0 {
      TwoHeads(s);
      forall p ensures Class(SwapNext(s, 0), p) == Class(s, p) {
        assert Class(s[1..], p) == if s[1].priority == p then [s[1]] + Class(s[2..], p) else Class(s[2..], p);
        assert Class(SwapNext(s, 0)[1..], p)
            == if s[0].priority == p then [s[0]] + Class(s[2..], p) else Class(s[2..], p);
      }
    } else {
      SwapRemovesInversion(s[1..], a - 1);
      SwapCounts(s[1..], a - 1, s[0].priority);
      assert SwapNext(s, a) == [s[0]] + SwapNext(s[1..], a - 1);
      assert SwapNext(s, a)[1..] == SwapNext(s[1..], a - 1);
    }
  }

  /** Entry i taken out and put back at position k. */
  ghost function MoveUp<T>(s: seq<T>, i: nat, k: nat): seq<T>
    requires k <= i < |s|
  {
    InsertAt(RemoveAt(s, i), k, s[i])
  }

  /** Moving an entry up past lower ones removes one inversion for each, and is stable. */
  lemma {:induction false} MoveRemovesInversions<T>(s: seq<Entry<T>>, i: nat, k: nat)
    requires k <= i < |s| && forall j :: k <= j < i ==> s[j].priority < s[i].priority
    ensures Inversions(MoveUp(s, i, k)) == Inversions(s) - (i - k)
    ensures forall p :: Class(MoveUp(s, i, k), p) == Class(s, p)
    decreases i
  {
    if k == i {
      assert MoveUp(s, i, k) == s;
    } else {
      var t := SwapNext(s, i - 1);
      SwapRemovesInversion(s, i - 1);
      MoveRemovesInversions(t, i - 1, k);
      assert MoveUp(t, i - 1, k) == MoveUp(s, i, k);
    }
  }

  /** What the sort does when entry i outranks its sorted predecessors' last: it goes up to the
      place where insertion puts it, past lower entries only. */
  lemma PromoteEffect<T>(s: seq<Entry<T>>, i: nat)
    requires 0 < i < |s| && Sorted(s[..i]) && s[i - 1].priority < s[i].priority
    ensures var k := Leading(RemoveAt(s, i), s[i].priority);
            k < i && Inversions(MoveUp(s, i, k)) == Inversions(s) - (i - k)
            && forall p :: Class(MoveUp(s, i, k), p) == Class(s, p)
  {
    var t := RemoveAt(s, i);
    var k := Leading(t, s[i].priority);
    assert t[i - 1] == s[i - 1];
    assert k < i;
    forall j | k <= j < i ensures s[j].priority < s[i].priority {
      assert s[..i][k].priority >= s[..i][j].priority;
      assert t[k] == s[k];
    }
    MoveRemovesInversions(s, i, k);
  }

  lemma SortedExtend<T>(s: seq<Entry<T>>, i: nat)
    requires 0 < i < |s| && Sorted(s[..i]) && s[i - 1].priority >= s[i].priority
    ensures Sorted(s[..i + 1])
  {
    forall a, b | 0 <= a < b < i + 1 ensures s[a].priority >= s[b].priority {
      assert a < i - 1 ==> s[..i][a].priority >= s[..i][i - 1].priority;
      assert b < i ==> s[..i][a].priority >= s[..i][b].priority;
    }
  }

  /** In a sorted sequence the leading entries are all that have the priority. */
  lemma SortedLeading<T>(s: seq<Entry<T>>, p: int)
    requires Sorted(s)
    ensures forall i :: 0 <= i < |s| ==> (s[i].priority >= p <==> i < Leading(s, p))
  {
  }

  lemma RemoveKeepsSorted<T>(s: seq<Entry<T>>, k: nat)
    requires Sorted(s) && k < |s|
    ensures Sorted(RemoveAt(s, k))
  {
  }

  // ----- changing one priority

  /** The position of the first entry with the given data, or the length. */
  function Find<T(==)>(s: seq<Entry<T>>, x: T): (k: nat)
    ensures k <= |s| && (k < |s| ==> s[k].data == x)
    ensures forall i :: 0 <= i < k ==> s[i].data != x
  {
    if s == [] || s[0].data == x then 0 else 1 + Find(s[1..], x)
  }

  lemma FindUnique<T>(s: seq<Entry<T>>, x: T, k: nat)
    requires k <= |s| && (k < |s| ==> s[k].data == x)
    requires forall i :: 0 <= i < k ==> s[i].data != x
    ensures k == Find(s, x)
  {
    var l := Find(s, x);
    assert !(k < l) && !(l < k);
  }

  function WithPriority<T>(s: seq<Entry<T>>, k: nat, p: int): (t: seq<Entry<T>>)
    requires k < |s|
    ensures |t| == |s|
  {
    s[k := Entry(s[k].data, p)]
  }

  // ----- recycling

  /** The head goes to the rear and takes the rear's priority. */
  function Recycled<T>(s: seq<Entry<T>>): (t: seq<Entry<T>>)
    ensures |t| == |s|
  {
    if |s| <= 1 then s else s[1..] + [Entry(s[0].data, s[|s| - 1].priority)]
  }

  function Data<T>(s: seq<Entry<T>>): (d: seq<T>)
    ensures |d| == |s| && forall i :: 0 <= i < |s| ==> d[i] == s[i].data
  {
    seq(|s|, i requires 0 <= i < |s| => s[i].data)
  }

  ghost function RecycledTimes<T>(s: seq<Entry<T>>, n: nat): (t: seq<Entry<T>>)
    ensures |t| == |s|
  {
    if n == 0 then s else Recycled(RecycledTimes(s, n - 1))
  }

  lemma RecycleKeepsSorted<T>(s: seq<Entry<T>>)
    requires Sorted(s)
    ensures Sorted(Recycled(s))
  {
  }

  lemma {:induction false} RecyclingRotates<T>(s: seq<Entry<T>>, n: nat)
    requires n <= |s|
    ensures Data(RecycledTimes(s, n)) == Data(s)[n..] + Data(s)[..n]
    ensures |s| > 1 ==> forall i :: |s| - n <= i < |s| ==> RecycledTimes(s, n)[i].priority == s[|s| - 1].priority
    ensures |s| > 1 ==> RecycledTimes(s, n)[|s| - 1].priority == s[|s| - 1].priority
    decreases n
  {
    if n != 0 {
      var t := RecycledTimes(s, n - 1);
      RecyclingRotates(s, n - 1);
      assert Data(t)[0] == Data(s)[n - 1];
      if |s| > 1 {
        assert Data(Recycled(t)) == Data(t)[1..] + [Data(t)[0]];
      }
    }
  }

  /** n recyclings of n entries: the k-th one returns the k-th datum, the order of the data is
      restored, and every entry is left with the lowest priority of the queue. */
  lemma FullRecycle<T>(s: seq<Entry<T>>)
    requires Sorted(s)
    ensures forall k :: 0 <= k < |s| ==> RecycledTimes(s, k)[0].data == s[k].data
    ensures Data(RecycledTimes(s, |s|)) == Data(s)
    ensures |s| > 1 ==> forall i :: 0 <= i < |s| ==> RecycledTimes(s, |s|)[i].priority == s[|s| - 1].priority
  {
    forall k | 0 <= k < |s| ensures RecycledTimes(s, k)[0].data == s[k].data {
      RecyclingRotates(s, k);
      assert Data(RecycledTimes(s, k))[0] == Data(s)[k];
    }
    RecyclingRotates(s, |s|);
  }
}
