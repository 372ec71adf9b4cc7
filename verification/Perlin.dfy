/** The permutation table of the Perlin noise generator.

    The shuffle draws j strictly below i, so it is Sattolo's variant: the table it leaves is one
    single cycle.  Each cycle comes from exactly one list of draws, so uniform draws give a
    uniformly distributed cycle. */
module Perlin {
  import Pcg

  function Identity(n: nat): (p: seq<nat>)
    ensures |p| == n && forall x :: 0 <= x < n ==> p[x] == x
  {
    seq(n, x requires 0 <= x < n => x)
  }

  function Swapped(p: seq<nat>, i: nat, j: nat): (q: seq<nat>)
    requires i < |p| && j < |p|
    ensures |q| == |p|
  {
    p[i := p[j]][j := p[i]]
  }

  ghost predicate Permutation(p: seq<nat>) {
    && (forall x :: 0 <= x < |p| ==> p[x] < |p|)
    && (forall x, y :: 0 <= x < y < |p| ==> p[x] != p[y])
  }

  /** A set of positions that p does not leave. */
  ghost predicate Closed(p: seq<nat>, s: set<nat>) {
    forall x :: x in s ==> x < |p| && p[x] in s
  }

  /** Every non-empty closed set is the whole table: p is one cycle through all positions. */
  ghost predicate SingleCycle(p: seq<nat>) {
    && Permutation(p)
    && forall s: set<nat>, x :: s != {} && Closed(p, s) && 0 <= x < |p| ==> x in s
  }

  /** draws[i] is the j drawn for position i; the entry for position 0 is not used. */
  ghost predicate Draws(draws: seq<nat>) {
    forall i :: 0 < i < |draws| ==> draws[i] < i
  }

  /** The shuffle from position i downwards, in the order of the loop. */
  ghost function ShuffleFrom(p: seq<nat>, i: nat, draws: seq<nat>): (q: seq<nat>)
    requires i < |p| && i < |draws| && Draws(draws)
    ensures |q| == |p|
    decreases i
  {
    if i == 0 then p else ShuffleFrom(Swapped(p, i, draws[i]), i - 1, draws)
  }

  /** The same permutation built upwards: step i sends the position that pointed to i and the one
      that pointed to draws[i] to each other's targets. */
  ghost function Cycle(n: nat, draws: seq<nat>): (q: seq<nat>)
    requires n <= |draws| && Draws(draws)
    ensures |q| == n && forall x :: 0 <= x < n ==> q[x] < n
  {
    if n == 0 then []
    else if n == 1 then [0]
    else Exchanged(Cycle(n - 1, draws) + [n - 1], n - 1, draws[n - 1])
  }

  /** Values i and j exchanged. */
  function Exchanged(p: seq<nat>, i: nat, j: nat): (q: seq<nat>)
    ensures |q| == |p|
    ensures forall x :: 0 <= x < |p| ==> q[x] == if p[x] == i then j else if p[x] == j then i else p[x]
  {
    seq(|p|, x requires 0 <= x < |p| => if p[x] == i then j else if p[x] == j then i else p[x])
  }

  /** Positions of p looked up through q. */
  ghost function Through(p: seq<nat>, q: seq<nat>): (r: seq<nat>)
    requires forall x :: 0 <= x < |q| ==> q[x] < |p|
    ensures |r| == |q| && forall x :: 0 <= x < |q| ==> r[x] == p[q[x]]
  {
    seq(|q|, x requires 0 <= x < |q| => p[q[x]])
  }

  lemma {:induction false} ShuffleIsCycle(p: seq<nat>, i: nat, draws: seq<nat>)
    requires i < |p| && i < |draws| && Draws(draws)
    ensures ShuffleFrom(p, i, draws) == Through(p, Cycle(i + 1, draws)) + p[i + 1..]
    decreases i
  {
    if i == 0 {
      assert p == Through(p, [0]) + p[1..];
    } else {
      ShuffleIsCycle(Swapped(p, i, draws[i]), i - 1, draws);
      OneStep(p, i, draws[i], Cycle(i, draws));
    }
  }

  lemma OneStep(p: seq<nat>, i: nat, j: nat, below: seq<nat>)
    requires j < i < |p| && |below| == i && forall x :: 0 <= x < i ==> below[x] < i
    ensures var p' := Swapped(p, i, j);
            Through(p', below) + p'[i..] == Through(p, Exchanged(below + [i], i, j)) + p[i + 1..]
  {
    var p', all := Swapped(p, i, j), Exchanged(below + [i], i, j);
    assert p'[i..] == [p[all[i]]] + p[i + 1..];
    assert Through(p, all) == Through(p', below) + [p[all[i]]];
  }

  /** What the whole shuffle makes of the identity table. */
  lemma ShuffledIdentity(n: nat, draws: seq<nat>)
    requires 0 < n <= |draws| && Draws(draws)
    ensures ShuffleFrom(Identity(n), n - 1, draws) == Cycle(n, draws) && SingleCycle(Cycle(n, draws))
  {
    ShuffleIsCycle(Identity(n), n - 1, draws);
    assert Through(Identity(n), Cycle(n, draws)) + Identity(n)[n..] == Cycle(n, draws);
    CycleIsSingle(n, draws);
  }

  lemma LastOfCycle(n: nat, draws: seq<nat>)
    requires 1 < n <= |draws| && Draws(draws)
    ensures Cycle(n, draws)[n - 1] == draws[n - 1]
  {
  }

  // ----- one single cycle

  lemma {:induction false} CycleIsSingle(n: nat, draws: seq<nat>)
    requires n <= |draws| && Draws(draws)
    ensures SingleCycle(Cycle(n, draws))
    decreases n
  {
    if n == 1 {
      forall s: set<nat>, x | s != {} && Closed([0], s) && 0 <= x < 1 ensures x in s {
        var y :| y in s;
      }
    } else if n > 1 {
      var p := Cycle(n - 1, draws);
      CycleIsSingle(n - 1, draws);
      InsertKeepsCycle(p, draws[n - 1]);
    }
  }

  /** Splicing the new last position in front of j keeps one cycle. */
  lemma InsertKeepsCycle(p: seq<nat>, j: nat)
    requires SingleCycle(p) && j < |p|
    ensures SingleCycle(Exchanged(p + [|p|], |p|, j))
  {
    var k := |p|;
    var q := Exchanged(p + [k], k, j);
    assert forall x :: 0 <= x < k ==> q[x] == if p[x] == j then k else p[x];
    assert q[k] == j;
    forall s: set<nat>, x | s != {} && Closed(q, s) && 0 <= x < |q| ensures x in s {
      var t := s - {k};
      assert t != {} by {
        var y :| y in s;
        assert q[y] in s;
        assert y in t || q[y] in t;
      }
      assert Closed(p, t);
      assert j in t;
      if x < k {
        assert x in t;
      } else {
        Preimage(p, j, t);
        var y :| y in t && y < |p| && p[y] == j;
        assert q[y] in s;
      }
    }
  }

  /** In a single cycle something points at every position. */
  lemma Preimage(p: seq<nat>, j: nat, t: set<nat>)
    requires SingleCycle(p) && j < |p| && t != {} && Closed(p, t)
    ensures exists y :: y in t && y < |p| && p[y] == j
  {
    var image := set y | y in t :: p[y];
    var z :| z in t;
    assert p[z] in image;
    assert Closed(p, image);
    assert j in image;
  }

  lemma NoFixedPoint(p: seq<nat>, x: nat)
    requires SingleCycle(p) && |p| > 1 && x < |p|
    ensures p[x] != x
  {
    if p[x] == x {
      var s := {x};
      assert x in s;
      InClosedSet(p, s, if x == 0 then 1 else 0);
    }
  }

  lemma InClosedSet(p: seq<nat>, s: set<nat>, x: nat)
    requires SingleCycle(p) && s != {} && Closed(p, s) && x < |p|
    ensures x in s
  {
  }

  // ----- the same thing said with orbits

  ghost function Walk(p: seq<nat>, x: nat, n: nat): nat
    requires Permutation(p) && x < |p|
    ensures Walk(p, x, n) < |p|
  {
    if n == 0 then x else p[Walk(p, x, n - 1)]
  }

  ghost predicate Reaches(p: seq<nat>, x: nat, y: nat)
    requires Permutation(p) && x < |p|
  {
    exists n: nat :: Walk(p, x, n) == y
  }

  /** One cycle means: from every position every position is reached. */
  lemma SingleCycleMeansReachable(p: seq<nat>)
    requires Permutation(p)
    ensures SingleCycle(p) <==> forall x, y :: 0 <= x < |p| && 0 <= y < |p| ==> Reaches(p, x, y)
  {
    if SingleCycle(p) {
      forall x, y | 0 <= x < |p| && 0 <= y < |p| ensures Reaches(p, x, y) {
        var orbit := set z | 0 <= z < |p| && Reaches(p, x, z);
        assert Walk(p, x, 0) == x && x in orbit;
        forall z | z in orbit ensures p[z] in orbit {
          var n: nat :| Walk(p, x, n) == z;
          assert Walk(p, x, n + 1) == p[z];
        }
        assert Closed(p, orbit);
        assert y in orbit;
      }
    }
    if forall x, y :: 0 <= x < |p| && 0 <= y < |p| ==> Reaches(p, x, y) {
      forall s: set<nat>, y | s != {} && Closed(p, s) && 0 <= y < |p| ensures y in s {
        var x :| x in s;
        assert Reaches(p, x, y);
        var n: nat :| Walk(p, x, n) == y;
        WalkStays(p, s, x, n);
      }
    }
  }

  lemma {:induction false} WalkStays(p: seq<nat>, s: set<nat>, x: nat, n: nat)
    requires Permutation(p) && x < |p| && Closed(p, s) && x in s
    ensures Walk(p, x, n) in s
  {
    if n != 0 {
      WalkStays(p, s, x, n - 1);
    }
  }

  // ----- draws and cycles correspond one to one

  lemma {:induction false} CycleDeterminesDraws(n: nat, d: seq<nat>, e: seq<nat>, i: nat)
    requires n <= |d| && n <= |e| && Draws(d) && Draws(e)
    requires Cycle(n, d) == Cycle(n, e) && 0 < i < n
    ensures d[i] == e[i]
    decreases n
  {
    var k := n - 1;
    assert Cycle(n, d)[k] == d[k] && Cycle(n, e)[k] == e[k];
    if i < k {
      var p, q := Cycle(k, d), Cycle(k, e);
      assert Exchanged(Exchanged(p + [k], k, d[k]), k, d[k]) == p + [k];
      assert Exchanged(Exchanged(q + [k], k, e[k]), k, e[k]) == q + [k];
      assert p == (p + [k])[..k] && q == (q + [k])[..k];
      CycleDeterminesDraws(k, d, e, i);
    }
  }

  lemma {:induction false} EveryCycleIsDrawn(p: seq<nat>) returns (draws: seq<nat>)
    requires SingleCycle(p)
    ensures |draws| == |p| && Draws(draws) && Cycle(|p|, draws) == p
    decreases |p|
  {
    if |p| <= 1 {
      draws := p;
    } else {
      var k := |p| - 1;
      var j := p[k];
      NoFixedPoint(p, k);
      var q := Exchanged(p, k, j);
      RemoveKeepsCycle(p);
      var rest := EveryCycleIsDrawn(q[..k]);
      draws := rest + [j];
      SameDraws(k, rest, draws);
      assert q == q[..k] + [k];
      assert Exchanged(q, k, j) == p;
    }
  }

  lemma {:induction false} SameDraws(n: nat, d: seq<nat>, e: seq<nat>)
    requires n <= |d| <= |e| && d == e[..|d|] && Draws(d) && Draws(e)
    ensures Cycle(n, d) == Cycle(n, e)
  {
    if n > 1 {
      SameDraws(n - 1, d, e);
      assert d[n - 1] == e[n - 1];
    }
  }

  /** Taking the last position out of a cycle leaves a cycle. */
  lemma RemoveKeepsCycle(p: seq<nat>)
    requires SingleCycle(p) && |p| > 1
    ensures SingleCycle(Exchanged(p, |p| - 1, p[|p| - 1])[..|p| - 1])
  {
    var k := |p| - 1;
    var j := p[k];
    var q := Exchanged(p, k, j)[..k];
    NoFixedPoint(p, k);
    assert forall x :: 0 <= x < k ==> q[x] == if p[x] == k then j else p[x];
    assert Permutation(q);
    forall s: set<nat>, x | s != {} && Closed(q, s) && 0 <= x < |q| ensures x in s {
      var t := if j in s then s + {k} else s;
      assert t != {};
      assert Closed(p, t);
      assert k in t;
      assert x in t;
    }
  }

  // ----- the table

  /** The draws that the generator supplies: the draw for i is the (n - i)-th, modulo i. */
  ghost function DrawsFrom(state: Pcg.Word64, inc: Pcg.Word64, n: nat): (d: seq<nat>)
    ensures |d| == n && Draws(d)
  {
    seq(n, i requires 0 <= i < n => DrawFor(state, inc, n, i))
  }

  ghost function DrawFor(state: Pcg.Word64, inc: Pcg.Word64, n: nat, i: nat): (j: nat)
    requires i < n
    ensures i > 0 ==> j < i
  {
    if i == 0 then 0 else Pcg.Output(Pcg.StateAt(state, inc, 2 * (n - 1 - i))) % i
  }

  class PerlinNoise {
    const size: nat            // 256 in the source
    const perm: array<nat>     // twice that
    const rng: Pcg.Generator

    predicate Valid()
      reads this
    {
      size > 0 && perm.Length == 2 * size
    }

    constructor (size: nat, rng: Pcg.Generator)
      requires size > 0
      ensures Valid() && fresh(perm) && this.size == size && this.rng == rng
    {
      this.size := size;
      this.rng := rng;
      perm := new nat[2 * size];
    }

    /** Builds the table: whatever the generator's state, one single cycle and its copy.  The draw for position i
        is every second word of the generator, modulo i, from the last position downwards. */
    method Reshuffle() returns (ghost draws: seq<nat>)
      requires Valid()
      modifies perm, rng`state
      ensures |draws| == size && Draws(draws)
      ensures forall i :: 0 < i < size ==>
        draws[i] == Pcg.Output(Pcg.StateAt(old(rng.state), rng.inc, 2 * (size - 1 - i))) % i
      ensures perm[..size] == Cycle(size, draws)
      ensures size > 1 ==> perm[size - 1] == Pcg.Output(old(rng.state)) % (size - 1)
      ensures SingleCycle(perm[..size]) && perm[size..] == perm[..size]
      ensures rng.state == Pcg.StateAt(old(rng.state), rng.inc, 2 * (size - 1))
    {
      ghost var start := rng.state;
      draws := DrawsFrom(start, rng.inc, size);
      for i := 0 to size
        invariant forall x :: 0 <= x < i ==> perm[x] == x
        invariant rng.state == start
      {
        perm[i] := i;
      }
      assert perm[..size] == Identity(size);
      Shuffle(draws);
      ShuffledIdentity(size, draws);
      Duplicate();
      if size > 1 {
        LastOfCycle(size, draws);
        assert perm[size - 1] == perm[..size][size - 1];
      }
    }

    /** The middle loop of Reshuffle. */
    method Shuffle(ghost draws: seq<nat>)
      requires Valid() && draws == DrawsFrom(rng.state, rng.inc, size)
      modifies perm, rng`state
      ensures perm[..size] == ShuffleFrom(old(perm[..size]), size - 1, draws)
      ensures rng.state == Pcg.StateAt(old(rng.state), rng.inc, 2 * (size - 1))
    {
      ghost var start, all := rng.state, ShuffleFrom(perm[..size], size - 1, draws);
      var i := size - 1;
      while i > 0
        invariant 0 <= i < size
        invariant rng.state == Pcg.StateAt(start, rng.inc, 2 * (size - 1 - i))
        invariant ShuffleFrom(perm[..size], i, draws) == all
      {
        ShuffleOne(i, start, draws);
        i := i - 1;
      }
    }

    method ShuffleOne(i: nat, ghost start: Pcg.Word64, ghost draws: seq<nat>)
      requires Valid() && 0 < i < size && draws == DrawsFrom(start, rng.inc, size)
      requires rng.state == Pcg.StateAt(start, rng.inc, 2 * (size - 1 - i))
      modifies perm, rng`state
      ensures rng.state == Pcg.StateAt(start, rng.inc, 2 * (size - 1 - (i - 1)))
      ensures ShuffleFrom(perm[..size], i - 1, draws) == ShuffleFrom(old(perm[..size]), i, draws)
    {
      var j := Draw(i, start, draws);
      Swap(i, j);
    }

    /** The draw for a position. */
    method Draw(i: nat, ghost start: Pcg.Word64, ghost draws: seq<nat>) returns (j: nat)
      requires 0 < i < size && draws == DrawsFrom(start, rng.inc, size)
      requires rng.state == Pcg.StateAt(start, rng.inc, 2 * (size - 1 - i))
      modifies rng`state
      ensures j == draws[i] < i && rng.state == Pcg.StateAt(start, rng.inc, 2 * (size - 1 - (i - 1)))
    {
      var word := rng.RandomU32();
      TwoSteps(start, rng.inc, 2 * (size - 1 - i));
      j := word % i;
    }

    method Swap(i: nat, j: nat)
      requires Valid() && i < size && j < size
      modifies perm
      ensures perm[..size] == Swapped(old(perm[..size]), i, j)
    {
      var tmp := perm[i];
      perm[i] := perm[j];
      perm[j] := tmp;
    }

    /** The last loop of Reshuffle. */
    method Duplicate()
      requires Valid()
      modifies perm
      ensures perm[..size] == old(perm[..size]) == perm[size..]
    {
      for k := 0 to size
        invariant forall x :: 0 <= x < size ==> perm[x] == old(perm[x])
        invariant forall x :: 0 <= x < k ==> perm[size + x] == old(perm[x])
      {
        perm[size + k] := perm[k];
      }
    }
  }

  lemma TwoSteps(state: Pcg.Word64, inc: Pcg.Word64, n: nat)
    ensures Pcg.StateAt(Pcg.StateAt(state, inc, n), inc, 2) == Pcg.StateAt(state, inc, n + 2)
  {
    var s := Pcg.StateAt(state, inc, n);
    assert Pcg.StateAt(s, inc, 0) == s;
    assert Pcg.StateAt(s, inc, 1) == Pcg.Step(s, inc) == Pcg.StateAt(state, inc, n + 1);
  }

  /** Every index that the noise function forms is inside the doubled table, and reading there is
      reading the cycle at the index modulo its size: the copy replaces all overflow checks. */
  lemma LookupsWrap(table: seq<nat>, n: nat, x: nat, y: nat, dx: nat, dy: nat)
    requires n > 0 && |table| == 2 * n && table[n..] == table[..n] && Permutation(table[..n])
    requires x < n && y < n && dx <= 1 && dy <= 1
    ensures y + dy < 2 * n && x + dx + table[y + dy] < 2 * n
    ensures table[y + dy] == table[if y + dy < n then y + dy else 0]
    ensures var k := x + dx + table[y + dy]; table[k] == table[if k < n then k else k - n]
  {
    assert forall i :: 0 <= i < n ==> table[n + i] == table[n..][i];
    assert forall i :: 0 <= i < n ==> table[..n][i] == table[i];
  }
}
