/** The element pool: a fixed number of slots in a ring of free ones, and heap elements when it is
    empty; and the bus adapter's use of it. */
module ElementPools {
  import opened Basics
  import opened RingBuffers

  /** A reference to an element: nothing, a slot of the pool, the n-th element that the pool took from
      the heap, or an element that is not the pool's. */
  datatype Ref = Null | Slot(i: nat) | Heap(n: nat) | Foreign(n: nat)

  /** lent and live are history: slots and heap elements in the hands of clients. */
  datatype Pool = Pool(capacity: nat, free: seq<Ref>, overdraws: nat, freed: nat, low: nat,
                       lent: set<Ref>, live: set<Ref>)

  /** The address test: is the element one of the slots? */
  predicate InPool(capacity: nat, e: Ref) {
    e.Slot? && e.i < capacity
  }

  function Take(p: Pool): (Pool, Ref) {
    if p.free == [] then
      var e := Heap(p.overdraws);
      (p.(overdraws := p.overdraws + 1, live := p.live + {e}, low := 0), e)
    else
      var e, rest := p.free[0], p.free[1..];
      (p.(free := rest, lent := p.lent + {e}, low := if p.low > |rest| then |rest| else p.low), e)
  }

  function Give(p: Pool, e: Ref): Pool {
    if InPool(p.capacity, e) then
      p.(free := if |p.free| < p.capacity then p.free + [e] else p.free, lent := p.lent - {e})
    else p.(freed := p.freed + 1, live := p.live - {e})
  }

  /** The slots are the disjoint union of the free and the lent ones; overdraws that were not freed are
      the live heap elements. */
  ghost predicate Whole(p: Pool) {
    && NoDuplicates(p.free) && |p.free| + |p.lent| == p.capacity
    && (forall k :: 0 <= k < |p.free| ==> InPool(p.capacity, p.free[k]) && p.free[k] !in p.lent)
    && (forall e :: e in p.lent ==> InPool(p.capacity, e))
    && (forall i: nat :: i < p.capacity ==> Slot(i) in p.free || Slot(i) in p.lent)
    && p.overdraws - p.freed == |p.live|
    && (forall e :: e in p.live ==> e.Heap? && e.n < p.overdraws)
    && p.low <= |p.free|
  }

  /** What is free or lent is a slot, and what is live is from the heap; this holds of a pool that is
      not whole, too. */
  ghost predicate Typed(p: Pool) {
    && (forall k :: 0 <= k < |p.free| ==> InPool(p.capacity, p.free[k]))
    && (forall e :: e in p.lent ==> InPool(p.capacity, e))
    && (forall e :: e in p.live ==> e.Heap?)
  }

  ghost predicate Out(p: Pool, e: Ref) {
    e in p.lent || e in p.live
  }

  /** Taking keeps the pool whole, and what is taken was not out already. */
  lemma TakeKeeps(p: Pool)
    requires Whole(p)
    ensures var (q, e) := Take(p); Whole(q) && e != Null && !Out(p, e) && Out(q, e)
    ensures var (q, e) := Take(p); q.low == Min(p.low, |q.free|) && q.capacity == p.capacity
  {
    var (q, e) := Take(p);
    if p.free == [] {
      assert e !in p.live;
    } else {
      assert e == p.free[0];
      forall i: nat | i < p.capacity ensures Slot(i) in q.free || Slot(i) in q.lent {
        if Slot(i) in p.free {
          var k :| 0 <= k < |p.free| && p.free[k] == Slot(i);
          assert k > 0 ==> q.free[k - 1] == Slot(i);
        }
      }
    }
  }

  /** Giving back what is out keeps the pool whole, and the ring has room for it. */
  lemma GiveKeeps(p: Pool, e: Ref)
    requires Whole(p) && Out(p, e)
    ensures Whole(Give(p, e)) && !Out(Give(p, e), e) && Give(p, e).low == p.low && Give(p, e).capacity == p.capacity
    ensures e in p.lent ==> Give(p, e).free == p.free + [e]
  {
    var q := Give(p, e);
    if e in p.lent {
      assert |p.free| < p.capacity;
      forall i: nat | i < p.capacity ensures Slot(i) in q.free || Slot(i) in q.lent {
        if Slot(i) in p.free {
          var k :| 0 <= k < |p.free| && p.free[k] == Slot(i);
          assert q.free[k] == Slot(i);
        }
        assert q.free[|p.free|] == e;
      }
    }
  }

  /** What can be given back: what is out, and any slot while all slots are free, which the ring refuses. */
  ghost predicate Returnable(p: Pool, e: Ref) {
    Out(p, e) || (InPool(p.capacity, e) && |p.free| == p.capacity)
  }

  /** Giving anything else breaks the pool: a slot would be free twice, or the count of freed elements
      would run ahead of the overdraws. */
  lemma GiveKeepsExactly(p: Pool, e: Ref)
    requires Whole(p)
    ensures Whole(Give(p, e)) <==> Returnable(p, e)
  {
    if Out(p, e) {
      GiveKeeps(p, e);
    } else if InPool(p.capacity, e) {
      assert e == Slot(e.i);
      var k :| 0 <= k < |p.free| && p.free[k] == e;
      var q := Give(p, e);
      assert q.lent == p.lent;
      if |p.free| < p.capacity {
        assert q.free[k] == q.free[|p.free|];
      } else {
        assert q == p;
      }
    } else {
      assert Give(p, e).live == p.live;
    }
  }

  lemma TakeKeepsIfWhole(p: Pool)
    ensures var (q, e) := Take(p); Whole(p) ==> Whole(q) && !Out(p, e) && Out(q, e)
  {
    if Whole(p) {
      TakeKeeps(p);
    }
  }

  lemma GiveKeepsIfWhole(p: Pool, e: Ref)
    ensures Whole(p) ==> (Whole(Give(p, e)) <==> Returnable(p, e))
  {
    if Whole(p) {
      GiveKeepsExactly(p, e);
    }
  }

  // ----- before the slots are listed

  /** No slot has been listed; elements from the heap may be out. */
  ghost predicate Unlisted(p: Pool) {
    && p.free == [] && p.lent == {}
    && p.overdraws - p.freed == |p.live|
    && (forall e :: e in p.live ==> e.Heap? && e.n < p.overdraws)
    && p.low <= p.capacity
  }

  /** Until then taking keeps it so, and so does giving back exactly what is out. */
  lemma UnlistedKeeps(p: Pool, e: Ref)
    requires Unlisted(p)
    ensures var (q, f) := Take(p); Unlisted(q) && !Out(p, f) && Out(q, f)
    ensures !InPool(p.capacity, e) ==> (Unlisted(Give(p, e)) <==> Out(p, e))
  {
    var (q, f) := Take(p);
    assert f !in p.live;
    if !InPool(p.capacity, e) && !Out(p, e) {
      assert p.live - {e} == p.live;
    }
  }

  function Listed(p: Pool): Pool {
    p.(free := Slots(p.capacity))
  }

  /** Listing the slots makes the pool whole, whatever is out by then. */
  lemma ListingMakesWhole(p: Pool)
    requires Unlisted(p)
    ensures Whole(Listed(p))
  {
    forall i: nat | i < p.capacity ensures Slot(i) in Slots(p.capacity) {
      assert Slots(p.capacity)[i] == Slot(i);
    }
  }

  lemma KeepsAsUnlisted(p: Pool, e: Ref)
    ensures Unlisted(p) ==> var (q, f) := Take(p); Unlisted(q) && !Out(p, f) && Out(q, f)
    ensures Unlisted(p) && !InPool(p.capacity, e) ==> (Unlisted(Give(p, e)) <==> Out(p, e))
  {
    if Unlisted(p) {
      UnlistedKeeps(p, e);
    }
  }

  // ----- runs

  datatype Event = Taking | Giving(e: Ref)

  /** Clients give back only what is out. */
  ghost function Step(p: Pool, ev: Event): (q: Pool)
    requires Whole(p)
    ensures Whole(q) && q.capacity == p.capacity
  {
    match ev
    case Taking => TakeKeeps(p); Take(p).0
    case Giving(e) => if Out(p, e) then GiveKeeps(p, e); Give(p, e) else p
  }

  ghost function Run(p: Pool, es: seq<Event>): (q: Pool)
    requires Whole(p)
    ensures Whole(q) && q.capacity == p.capacity
  {
    if es == [] then p else Step(Run(p, es[..|es| - 1]), es[|es| - 1])
  }

  /** The smallest number of free slots at any moment of a run. */
  ghost function LeastFree(p: Pool, es: seq<Event>): nat
    requires Whole(p)
  {
    if es == [] then |p.free| else Min(LeastFree(p, es[..|es| - 1]), |Run(p, es).free|)
  }

  /** The low watermark is the least number of free slots that there ever was, or what it was at the start. */
  lemma {:induction false} WatermarkIsLeast(p: Pool, es: seq<Event>)
    requires Whole(p)
    ensures Run(p, es).low == Min(p.low, LeastFree(p, es))
  {
    if es != [] {
      var q, ev := Run(p, es[..|es| - 1]), es[|es| - 1];
      WatermarkIsLeast(p, es[..|es| - 1]);
      match ev
      case Taking => TakeKeeps(q);
      case Giving(e) =>
        if Out(q, e) {
          GiveKeeps(q, e);
        }
    }
  }

  function Slots(n: nat): (s: seq<Ref>)
    ensures |s| == n && forall i :: 0 <= i < n ==> s[i] == Slot(i)
  {
    seq(n, i requires 0 <= i < n => Slot(i))
  }

  /** A pool whose slots have just been listed. */
  function Populated(capacity: nat): (p: Pool)
    ensures Whole(p) && p.capacity == capacity
  {
    assert forall i: nat :: i < capacity ==> Slots(capacity)[i] == Slot(i);
    Pool(capacity, Slots(capacity), 0, 0, capacity, {}, {})
  }

  /** In every run from a whole pool an element that is taken is in nobody's hands, every slot is free or
      lent and not both, and the free ones fit the ring. */
  lemma NothingLentTwice(start: Pool, es: seq<Event>)
    requires Whole(start)
    ensures var p := Run(start, es); var (q, e) := Take(p);
      && !Out(p, e) && e != Null
      && (forall i: nat :: i < start.capacity ==> (Slot(i) in p.free <==> Slot(i) !in p.lent))
      && |p.free| <= start.capacity && p.overdraws - p.freed == |p.live|
  {
    var p := Run(start, es);
    TakeKeeps(p);
    forall i: nat | i < start.capacity ensures Slot(i) in p.free <==> Slot(i) !in p.lent {
      assert Slot(i) in p.free || Slot(i) in p.lent;
    }
  }

  // ----- the pool as an object

  class ElementPool {
    const list: RingBuffer<Ref>
    var populated: bool
    var overdraws: nat
    var overdrawsFreed: nat
    var lowWatermark: nat
    ghost var lent: set<Ref>
    ghost var live: set<Ref>

    ghost predicate Valid()
      reads this, list, list.pool
    {
      && list.Valid() && list.zero == Null && Typed(View())
      && (!populated ==> list.contents == [] && lent == {})
    }

    ghost function View(): Pool
      reads this, list
    {
      Pool(list.capacity, list.contents, overdraws, overdrawsFreed, lowWatermark, lent, live)
    }

    constructor (count: nat)
      requires 0 < count
      ensures Valid() && !populated && list.capacity == count && fresh(list) && fresh(list.pool)
      ensures list.contents == [] && overdraws == overdrawsFreed == 0 && lowWatermark == count && lent == live == {}
      ensures Unlisted(View())
    {
      list := new RingBuffer(count, Null);
      populated, overdraws, overdrawsFreed, lowWatermark, lent, live := false, 0, 0, count, {}, {};
    }

    /** Lists all slots as free, the first time. */
    method Allocated() returns (ready: bool)
      requires Valid()
      modifies this`populated, list, list.pool
      ensures Valid() && populated && ready
      ensures View() == if old(populated) then old(View()) else Listed(old(View()))
      ensures old(Unlisted(View())) && !old(populated) ==> Whole(View())
    {
      ghost var p := View();
      if !populated {
        var i := 0;
        while i < list.capacity
          invariant 0 <= i <= list.capacity && list.Valid() && list.contents == Slots(list.capacity)[..i]
        {
          var code := list.Insert(Slot(i));
          i := i + 1;
        }
        populated := true;
        if Unlisted(p) {
          ListingMakesWhole(p);
        }
      }
      ready := true;
    }

    /** The next free element, or a new one from the heap, which it is, too, before the slots are listed. */
    method TakeElement() returns (e: Ref)
      requires Valid()
      modifies this`overdraws, this`lowWatermark, this`lent, this`live, list
      ensures Valid() && (View(), e) == Take(old(View()))
      ensures if old(list.contents) == [] then e == Heap(old(overdraws)) && list.contents == []
              else e == old(list.contents)[0] && list.contents == old(list.contents)[1..]
      ensures overdraws == old(overdraws) + if old(list.contents) == [] then 1 else 0
      ensures lowWatermark == Min(old(lowWatermark), |list.contents|)
      ensures old(Whole(View())) ==> Whole(View()) && !old(Out(View(), e)) && Out(View(), e)
      ensures old(Unlisted(View())) ==> Unlisted(View()) && !old(Out(View(), e)) && Out(View(), e)
    {
      TakeKeepsIfWhole(View());
      KeepsAsUnlisted(View(), Null);
      e := Fetch();
    }

    method Fetch() returns (e: Ref)
      requires Valid()
      modifies this`overdraws, this`lowWatermark, this`lent, this`live, list
      ensures Valid() && (View(), e) == Take(old(View()))
    {
      e := list.Get();
      if e == Null {
        e := Heap(overdraws);
        overdraws := overdraws + 1;
        live := live + {e};
      } else {
        lent := lent + {e};
      }
      if lowWatermark > list.count {
        lowWatermark := list.count;
      }
    }

    /** Takes an element back: 1 for a slot, 0 for one that goes back to the heap.  Any element is
        accepted, also one that is not out; before the slots are listed no element is a slot. */
    method GiveElement(e: Ref) returns (code: int)
      requires Valid() && (!populated ==> !InPool(list.capacity, e))
      modifies this`overdrawsFreed, this`lent, this`live, list, list.pool
      ensures Valid() && View() == Give(old(View()), e)
      ensures code == if InPool(list.capacity, e) then 1 else 0
      ensures list.contents == if code == 1 && |old(list.contents)| < list.capacity then old(list.contents) + [e]
                               else old(list.contents)
      ensures overdrawsFreed == old(overdrawsFreed) + if code == 1 then 0 else 1
      ensures old(Whole(View())) ==> (Whole(View()) <==> old(Returnable(View(), e)))
      ensures old(Unlisted(View())) && !populated ==> (Unlisted(View()) <==> old(Out(View(), e)))
    {
      GiveKeepsIfWhole(View(), e);
      KeepsAsUnlisted(View(), e);
      code := Store(e);
    }

    method Store(e: Ref) returns (code: int)
      requires Valid() && (!populated ==> !InPool(list.capacity, e))
      modifies this`overdrawsFreed, this`lent, this`live, list, list.pool
      ensures Valid() && View() == Give(old(View()), e)
      ensures code == if InPool(list.capacity, e) then 1 else 0
    {
      if InPool(list.capacity, e) {
        var r := list.Insert(e);
        lent := lent - {e};
        code := 1;
      } else {
        overdrawsFreed := overdrawsFreed + 1;
        live := live - {e};
        code := 0;
      }
    }
  }

  // ----- the bus adapter's operations

  class BusAdapter {
    const preallocated: ElementPool
    /** The operations whose flag keeps them from being reaped; unless it is set, an operation is reaped. */
    var kept: set<Ref>
    var totalXfers: nat
    var failedXfers: nat

    ghost predicate Valid()
      reads this, preallocated, preallocated.list, preallocated.list.pool
    {
      preallocated.Valid()
    }

    ghost function View(): Pool
      reads this, preallocated, preallocated.list
    {
      preallocated.View()
    }

    constructor (count: nat)
      requires 0 < count
      ensures Valid() && !preallocated.populated && Unlisted(View()) && View() == Populated(count).(free := [])
      ensures kept == {} && totalXfers == failedXfers == 0
    {
      preallocated := new ElementPool(count);
      kept, totalXfers, failedXfers := {}, 0, 0;
    }

    /** A client says whether an operation is to be reaped. */
    method ShouldReap(op: Ref, reap: bool)
      modifies this`kept
      ensures kept == if reap then old(kept) - {op} else old(kept) + {op}
    {
      kept := if reap then kept - {op} else kept + {op};
    }

    /** A vacant operation; it is to be reaped only if it is not from the pool. */
    method NewOp() returns (op: Ref)
      requires Valid()
      modifies this`kept, preallocated, preallocated.list
      ensures Valid() && (View(), op) == Take(old(View()))
      ensures old(Whole(View())) ==> Whole(View()) && !old(Out(View(), op)) && Out(View(), op)
      ensures old(Unlisted(View())) ==> Unlisted(View()) && !old(Out(View(), op)) && Out(View(), op)
      ensures op in kept <==> InPool(preallocated.list.capacity, op)
      ensures forall e :: e != op ==> (e in kept <==> e in old(kept))
    {
      op := preallocated.TakeElement();
      ShouldReap(op, !InPool(preallocated.list.capacity, op));
    }

    /** A finished operation.  One from the pool goes back; of the others those that may be reaped are
        given to the pool, wherever they are from. */
    method ReclaimQueueItem(op: Ref, fault: bool)
      requires Valid() && (!preallocated.populated ==> !InPool(preallocated.list.capacity, op))
      modifies this`totalXfers, this`failedXfers, preallocated, preallocated.list, preallocated.list.pool
      ensures Valid()
      ensures var given := op !in kept || InPool(preallocated.list.capacity, op);
        && View() == (if given then Give(old(View()), op) else old(View()))
        && (old(Whole(View())) ==> (Whole(View()) <==> !given || old(Returnable(View(), op))))
        && (old(Unlisted(View())) && !preallocated.populated ==>
              (Unlisted(View()) <==> !given || old(Out(View(), op))))
      ensures totalXfers == old(totalXfers) + 1 && failedXfers == old(failedXfers) + if fault then 1 else 0
    {
      totalXfers := totalXfers + 1;
      if fault {
        failedXfers := failedXfers + 1;
      }
      if op !in kept || InPool(preallocated.list.capacity, op) {
        var code := preallocated.GiveElement(op);
      }
    }

    /** Lists the slots, if that has not been done, and makes the first turns of the set-up loop, at most as
        many as asked for: each takes an element and gives it back.  The loop counts with eight bits, so with
        256 slots or more it never ends. */
    method MemoryInit(turns: nat) returns (ended: bool)
      requires Valid()
      modifies this`kept, preallocated, preallocated.list, preallocated.list.pool
      ensures Valid()
      ensures ended <==> preallocated.list.capacity <= 255 && preallocated.list.capacity <= turns
      ensures var n, q := preallocated.list.capacity, old(View());
        var p := if old(preallocated.populated) then q else Listed(q);
        && View() == TouchedTimes(p, if ended then n else turns)
        && (Whole(p) ==> Whole(View()))
        && (ended && Whole(p) && p.lent == {} ==> View() == p.(low := Min(p.low, n - 1)))
        && (Unlisted(q) && !old(preallocated.populated) ==> Whole(p))
    {
      var ready := preallocated.Allocated();
      ghost var p := View();
      var turn;
      ended, turn := Touched(turns);
      SetUp(p, turn);
    }

    method Touched(turns: nat) returns (ended: bool, turn: nat)
      requires Valid() && preallocated.populated
      modifies this`kept, preallocated, preallocated.list, preallocated.list.pool
      ensures Valid() && View() == TouchedTimes(old(View()), turn)
      ensures ended <==> preallocated.list.capacity <= 255 && preallocated.list.capacity <= turns
      ensures turn == if ended then preallocated.list.capacity else turns
    {
      var n := preallocated.list.capacity;
      ghost var p := View();
      var i: nat := 0;
      turn := 0;
      while i < n && turn < turns
        invariant 0 <= turn <= turns && i == turn % 256 && (n <= 255 ==> turn == i <= n)
        invariant Valid() && preallocated.populated && View() == TouchedTimes(p, turn)
        decreases turns - turn
      {
        TouchNext();
        NextOctet(turn);
        i := (i + 1) % 256;
        turn := turn + 1;
      }
      ended := !(i < n);
    }

    /** Takes the next element and gives it back. */
    method TouchNext()
      requires Valid() && preallocated.populated
      modifies this`kept, preallocated, preallocated.list, preallocated.list.pool
      ensures Valid() && preallocated.populated && View() == Touch(old(View()))
    {
      var op := preallocated.Fetch();
      ShouldReap(op, false);
      var code := preallocated.Store(op);
    }
  }

  /** The next element is taken and given back. */
  function Touch(p: Pool): Pool {
    Give(Take(p).0, Take(p).1)
  }

  function TouchedTimes(p: Pool, i: nat): Pool {
    if i == 0 then p else Touch(TouchedTimes(p, i - 1))
  }

  lemma NextOctet(turn: nat)
    ensures (turn % 256 + 1) % 256 == (turn + 1) % 256 < 256
    ensures turn < 255 ==> (turn + 1) % 256 == turn + 1
  {
  }

  lemma {:induction false} TouchedIsWhole(p: Pool, i: nat)
    requires Whole(p)
    ensures Whole(TouchedTimes(p, i))
  {
    if i != 0 {
      TouchedIsWhole(p, i - 1);
      TouchKeeps(TouchedTimes(p, i - 1));
    }
  }

  lemma TouchKeeps(p: Pool)
    requires Whole(p)
    ensures Whole(Touch(p))
  {
    var (q, e) := Take(p);
    TakeKeeps(p);
    GiveKeeps(q, e);
  }

  /** When all slots are free, the next one goes to the end of the ring. */
  lemma TouchRotates(p: Pool)
    requires p.free != [] && |p.free| == p.capacity && p.lent == {} && InPool(p.capacity, p.free[0])
    ensures Touch(p) == p.(free := p.free[1..] + [p.free[0]], low := Min(p.low, |p.free| - 1))
  {
    assert p.lent + {p.free[0]} - {p.free[0]} == p.lent;
  }

  lemma Rotate<T>(s: seq<T>, i: nat)
    requires i < |s|
    ensures (s[i..] + s[..i])[1..] + [s[i]] == s[i + 1..] + s[..i + 1]
  {
  }

  lemma NoTurn<T>(s: seq<T>)
    ensures s[0..] + s[..0] == s && s[|s|..] + s[..|s|] == s
  {
  }

  /** What any number of turns keeps, and what a turn for each slot restores when all slots are free. */
  lemma SetUp(p: Pool, turn: nat)
    ensures Whole(p) ==> Whole(TouchedTimes(p, turn))
    ensures Whole(p) && p.lent == {} && turn == p.capacity > 0 ==>
      TouchedTimes(p, turn) == p.(low := Min(p.low, p.capacity - 1))
  {
    if Whole(p) {
      TouchedIsWhole(p, turn);
      if p.lent == {} && turn == p.capacity > 0 {
        TouchedAll(p, turn);
        NoTurn(p.free);
      }
    }
  }

  /** Up to one turn for each slot. */
  lemma {:induction false} TouchedAll(p: Pool, i: nat)
    requires 0 < |p.free| == p.capacity && p.lent == {} && i <= |p.free|
    requires forall k :: 0 <= k < |p.free| ==> InPool(p.capacity, p.free[k])
    ensures TouchedTimes(p, i)
         == p.(free := p.free[i..] + p.free[..i], low := if i == 0 then p.low else Min(p.low, |p.free| - 1))
  {
    var s := p.free;
    if i == 0 {
      NoTurn(s);
    } else {
      TouchedAll(p, i - 1);
      var q := p.(free := s[i - 1..] + s[..i - 1], low := if i == 1 then p.low else Min(p.low, |s| - 1));
      assert TouchedTimes(p, i - 1) == q && q.free[0] == s[i - 1];
      TouchRotates(q);
      Rotate(s, i - 1);
    }
  }
}
