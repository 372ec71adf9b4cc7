/** Step lists of the sequencer and the recursive closure that expands a request.

    A mask of up to 32 flags is the set of its one-bits; a flag is the number of its bit. */
module Steps {
  import opened Dependencies

  datatype StepDef = StepDef(flag: nat, deps: Mask)

  /** The list a sequencer works on: distinct one-bit flags of a 32-bit mask. */
  ghost predicate WellFormed(steps: seq<StepDef>) {
    && (forall i :: 0 <= i < |steps| ==> steps[i].flag < 32)
    && (forall i, j :: 0 <= i < j < |steps| ==> steps[i].flag != steps[j].flag)
  }

  ghost function Flags(steps: seq<StepDef>): (m: Mask)
    ensures forall i :: 0 <= i < |steps| ==> steps[i].flag in m
  {
    if steps == [] then {} else Flags(steps[..|steps| - 1]) + {steps[|steps| - 1].flag}
  }

  lemma {:induction false} FlagHasStep(steps: seq<StepDef>, f: nat) returns (i: nat)
    requires f in Flags(steps)
    ensures i < |steps| && steps[i].flag == f
  {
    var n := |steps| - 1;
    if steps[n].flag == f {
      i := n;
    } else {
      i := FlagHasStep(steps[..n], f);
    }
  }

  /** No step depends on a flag that has no step. */
  ghost predicate AllListed(steps: seq<StepDef>) {
    forall i :: 0 <= i < |steps| ==> steps[i].deps <= Flags(steps)
  }

  ghost function DepsOf(steps: seq<StepDef>, f: nat): Mask {
    if steps == [] then {}
    else if steps[|steps| - 1].flag == f then steps[|steps| - 1].deps
    else DepsOf(steps[..|steps| - 1], f)
  }

  lemma {:induction false} DepsOfStep(steps: seq<StepDef>, i: nat)
    requires WellFormed(steps) && i < |steps|
    ensures DepsOf(steps, steps[i].flag) == steps[i].deps
  {
    var n := |steps| - 1;
    if i < n {
      DepsOfStep(steps[..n], i);
    }
  }

  /** The dependency relation of the list; unlisted flags are filtered out. */
  ghost function GraphOf(steps: seq<StepDef>): Graph {
    map f | f in Flags(steps) :: DepsOf(steps, f) * Flags(steps)
  }

  lemma {:induction false} StepCount(steps: seq<StepDef>)
    requires WellFormed(steps)
    ensures |Flags(steps)| == |steps| <= 32
  {
    DistinctCount(steps);
    forall f | f in Flags(steps) ensures f < 32 {
      var _ := FlagHasStep(steps, f);
    }
    BoundedCount(Flags(steps), 32);
  }

  lemma {:induction false} DistinctCount(steps: seq<StepDef>)
    requires WellFormed(steps)
    ensures |Flags(steps)| == |steps|
  {
    if steps != [] {
      var n := |steps| - 1;
      DistinctCount(steps[..n]);
      if steps[n].flag in Flags(steps[..n]) {
        var _ := FlagHasStep(steps[..n], steps[n].flag);
      }
    }
  }

  lemma {:induction false} BoundedCount(m: Mask, n: nat)
    requires forall x :: x in m ==> x < n
    ensures |m| <= n
  {
    if n == 0 {
      assert m == {};
    } else {
      var rest := m - {n - 1};
      BoundedCount(rest, n - 1);
      assert m <= rest + {n - 1};
      SubsetSize(m, rest + {n - 1});
    }
  }

  lemma SubsetSize(a: Mask, b: Mask)
    requires a <= b
    ensures |a| <= |b|
  {
    if a != b {
      SizeGrows(a, b);
    }
  }

  // ----- the recursive closure of the source

  function Cap(steps: seq<StepDef>): nat {
    if |steps| < 32 then |steps| else 32
  }

  function DepthLeft(steps: seq<StepDef>, limiter: nat): nat {
    if limiter <= Cap(steps) then Cap(steps) - limiter + 1 else 0
  }

  /** What the source has collected after its first i steps, at the given recursion depth. */
  function Sweep(steps: seq<StepDef>, req: Mask, limiter: nat, i: nat): Mask
    requires i <= |steps|
    decreases DepthLeft(steps, limiter), i
  {
    if i == 0 then {}
    else
      var ret := Sweep(steps, req, limiter, i - 1);
      var step := steps[i - 1];
      if step.flag !in req then ret
      else
        var uncovered := step.deps - (ret + {step.flag});
        if uncovered != {} && limiter < Cap(steps)
        then ret + {step.flag} + Sweep(steps, uncovered, limiter + 1, |steps|)
        else ret + {step.flag}
  }

  function DependencyMask(steps: seq<StepDef>, req: Mask): Mask {
    Sweep(steps, req, 0, |steps|)
  }

  /** On any list, cyclic or not, nothing is returned but requested steps and steps that they
      depend on. */
  lemma {:induction false} SweepIsSound(steps: seq<StepDef>, req: Mask, limiter: nat, i: nat, t: Mask)
    requires WellFormed(steps) && i <= |steps|
    requires req * Flags(steps) <= t && ClosedUnder(GraphOf(steps), t)
    ensures Sweep(steps, req, limiter, i) <= t * Flags(steps)
    decreases DepthLeft(steps, limiter), i
  {
    if i != 0 {
      SweepIsSound(steps, req, limiter, i - 1, t);
      var ret, step := Sweep(steps, req, limiter, i - 1), steps[i - 1];
      if step.flag in req {
        DepsOfStep(steps, i - 1);
        var uncovered := step.deps - (ret + {step.flag});
        if uncovered != {} && limiter < Cap(steps) {
          assert GraphOf(steps)[step.flag] == step.deps * Flags(steps) <= t;
          SweepIsSound(steps, uncovered, limiter + 1, |steps|, t);
        }
      }
    }
  }

  /** If the request lies in a level that the remaining depth covers, the collected set is closed,
      although dependencies that are already in it are not followed again. */
  lemma {:induction false} SweepIsClosed(steps: seq<StepDef>, req: Mask, limiter: nat, i: nat, k: nat)
    requires WellFormed(steps) && i <= |steps|
    requires req * Flags(steps) <= Level(GraphOf(steps), k) && k + limiter <= Cap(steps)
    ensures ClosedUnder(GraphOf(steps), Sweep(steps, req, limiter, i))
    ensures forall j :: 0 <= j < i && steps[j].flag in req ==> steps[j].flag in Sweep(steps, req, limiter, i)
    decreases DepthLeft(steps, limiter), i
  {
    if i != 0 {
      SweepIsClosed(steps, req, limiter, i - 1, k);
      var ret, step := Sweep(steps, req, limiter, i - 1), steps[i - 1];
      if step.flag in req {
        DepsOfStep(steps, i - 1);
        assert step.flag in Level(GraphOf(steps), k);
        var uncovered := step.deps - (ret + {step.flag});
        var found := {};
        if uncovered != {} {
          SweepIsClosed(steps, uncovered, limiter + 1, |steps|, k - 1);
          found := Sweep(steps, uncovered, limiter + 1, |steps|);
          ListedAreFound(steps, uncovered, found);
        }
        AddStep(GraphOf(steps), ret, step.flag, found);
      }
    }
  }

  lemma ListedAreFound(steps: seq<StepDef>, req: Mask, found: Mask)
    requires forall j :: 0 <= j < |steps| && steps[j].flag in req ==> steps[j].flag in found
    ensures req * Flags(steps) <= found
  {
    forall f | f in req * Flags(steps) ensures f in found {
      var j := FlagHasStep(steps, f);
    }
  }

  lemma AddStep(g: Graph, ret: Mask, f: nat, found: Mask)
    requires ClosedUnder(g, ret) && ClosedUnder(g, found)
    requires f in g && g[f] <= ret + {f} + found
    ensures ClosedUnder(g, ret + {f} + found)
  {
  }

  /** The recursion computes exactly the least closed set for every request from which no cycle is reached,
      whatever the rest of the list is like: its steps lie in a level that the depth limit covers. */
  lemma ClosureOfRequest(steps: seq<StepDef>, req: Mask, k: nat)
    requires WellFormed(steps) && k <= |steps| && req * Flags(steps) <= Level(GraphOf(steps), k)
    ensures IsClosureOf(GraphOf(steps), DependencyMask(steps, req), req)
  {
    var n, g, m := |steps|, GraphOf(steps), DependencyMask(steps, req);
    StepCount(steps);
    assert g.Keys == Flags(steps);
    SweepIsClosed(steps, req, 0, n, k);
    ListedAreFound(steps, req, m);
    SweepIsSound(steps, req, 0, n, g.Keys);
    forall t: Mask | req * g.Keys <= t && ClosedUnder(g, t) ensures m <= t {
      SweepIsSound(steps, req, 0, n, t);
    }
  }

  /** So it is if no dependency chain from the request is longer than the list, that is, if none runs into a
      cycle. */
  lemma ClosureWithoutCycle(steps: seq<StepDef>, req: Mask)
    requires WellFormed(steps)
    requires forall c: seq<nat> :: Chain(GraphOf(steps), c) && c != [] && c[0] in req ==> |c| <= |steps|
    ensures IsClosureOf(GraphOf(steps), DependencyMask(steps, req), req)
  {
    var n, g := |steps|, GraphOf(steps);
    forall f | f in req * Flags(steps) ensures f in Level(g, n) {
      if f !in Level(g, n) {
        var c := LongChain(g, n, f);
        assert false;
      }
    }
    ClosureOfRequest(steps, req, n);
  }

  /** On an acyclic list it does so for every request. */
  lemma DependencyMaskIsClosure(steps: seq<StepDef>, req: Mask)
    requires WellFormed(steps) && Acyclic(GraphOf(steps))
    ensures IsClosureOf(GraphOf(steps), DependencyMask(steps, req), req)
  {
    StepCount(steps);
    assert GraphOf(steps).Keys == Flags(steps);
    AllLevels(GraphOf(steps), |steps|);
    ClosureOfRequest(steps, req, |steps|);
  }

  // ----- a cyclic list on which the closure is incomplete

  /** What step p adds to what has been collected before it. */
  ghost function Plumbed(steps: seq<StepDef>, ret: Mask, p: nat, limiter: nat): Mask
    requires p < |steps|
  {
    var here := ret + {steps[p].flag};
    var uncovered := steps[p].deps - here;
    if uncovered != {} && limiter < Cap(steps) then here + Sweep(steps, uncovered, limiter + 1, |steps|) else here
  }

  /** A request for the steps p and q alone: p first, then q, then nothing more. */
  lemma {:induction false} SweepTwo(steps: seq<StepDef>, req: Mask, limiter: nat, p: nat, q: nat, i: nat)
    requires WellFormed(steps) && p <= q < |steps| && i <= |steps| && req == {steps[p].flag, steps[q].flag}
    ensures Sweep(steps, req, limiter, i)
            == if i <= p then {}
               else if i <= q || p == q then Plumbed(steps, {}, p, limiter)
               else Plumbed(steps, Plumbed(steps, {}, p, limiter), q, limiter)
    decreases i
  {
    if i != 0 {
      SweepTwo(steps, req, limiter, p, q, i - 1);
      assert steps[i - 1].flag in req <==> i - 1 == p || i - 1 == q;
    }
  }

  const KNOT := [StepDef(0, {0, 3}), StepDef(1, {1, 2}), StepDef(2, {0, 3, 4}), StepDef(3, {0, 1}), StepDef(4, {3})]

  lemma KnotWellFormed()
    ensures |KNOT| == 5 && WellFormed(KNOT) && AllListed(KNOT)
    ensures forall i :: 0 <= i < 5 ==> KNOT[i].flag == i && i in Flags(KNOT)
  {
    var m := Flags(KNOT);
    assert KNOT[0].flag in m && KNOT[1].flag in m && KNOT[2].flag in m && KNOT[3].flag in m && KNOT[4].flag in m;
  }

  lemma KnotChain()
    ensures WellFormed(KNOT) && Chain(GraphOf(KNOT), [0, 3, 1, 2, 4])
  {
    KnotWellFormed();
    forall i | 0 <= i < 5 ensures GraphOf(KNOT)[i] == KNOT[i].deps {
      DepsOfStep(KNOT, i);
      assert KNOT[i].deps * Flags(KNOT) == KNOT[i].deps;
    }
  }

  /** A call for a single step of the knot, above the depth limit. */
  lemma KnotCall(p: nat, limiter: nat, uncovered: Mask)
    requires p < 5 && limiter < 5 && uncovered == KNOT[p].deps - {p} != {}
    ensures Sweep(KNOT, {p}, limiter, 5) == {p} + Sweep(KNOT, uncovered, limiter + 1, 5)
  {
    KnotWellFormed();
    assert {p} == {KNOT[p].flag, KNOT[p].flag};
    SweepTwo(KNOT, {p}, limiter, p, p, 5);
    assert {} + {p} == {p};
  }

  lemma KnotAtLimit(p: nat)
    requires p < 5
    ensures Sweep(KNOT, {p}, 5, 5) == {p}
  {
    KnotWellFormed();
    assert {p} == {KNOT[p].flag, KNOT[p].flag};
    SweepTwo(KNOT, {p}, 5, p, p, 5);
  }

  /** A call for the steps 0 and 1, given what the call for step 3 below it finds. */
  lemma KnotPair(limiter: nat, below: Mask)
    requires limiter < 5 && below == Sweep(KNOT, {3}, limiter + 1, 5)
    requires (below == {3} && limiter == 4) || below == {0, 1, 2, 3}
    ensures Sweep(KNOT, {0, 1}, limiter, 5) == {0, 1, 2, 3}
  {
    KnotWellFormed();
    SweepTwo(KNOT, {0, 1}, limiter, 0, 1, 5);
    assert KNOT[0].deps - ({} + {0}) == {3};
    var first := Plumbed(KNOT, {}, 0, limiter);
    assert first == {0} + below;
    if limiter == 4 && below == {3} {
      assert KNOT[1].deps - (first + {1}) == {2};
      KnotAtLimit(2);
    } else {
      assert KNOT[1].deps - (first + {1}) == {};
    }
  }

  lemma KnotFinds()
    ensures |KNOT| == 5 && DependencyMask(KNOT, {0}) == {0, 1, 2, 3}
  {
    KnotWellFormed();
    KnotAtLimit(3);
    KnotPair(4, {3});
    KnotCall(3, 3, {0, 1});
    KnotPair(2, Sweep(KNOT, {3}, 3, 5));
    KnotCall(3, 1, {0, 1});
    KnotCall(0, 0, {3});
  }

  /** Five steps with cycles: step 0 depends on 3, 3 on 1, 1 on 2 and 2 on 4, but a request for
      step 0 does not bring in step 4.  Step 2 is first met at the depth limit, where its
      dependencies are not followed, and is taken for covered ever after. */
  lemma CyclicListMissesDependency()
    ensures WellFormed(KNOT) && AllListed(KNOT)
    ensures Chain(GraphOf(KNOT), [0, 3, 1, 2, 4])
    ensures DependencyMask(KNOT, {0}) == {0, 1, 2, 3}
    ensures !IsClosureOf(GraphOf(KNOT), DependencyMask(KNOT, {0}), {0})
  {
    KnotChain();
    KnotWellFormed();
    KnotFinds();
    ChainLeaves(GraphOf(KNOT), DependencyMask(KNOT, {0}), [0, 3, 1, 2, 4]);
  }

  lemma PairFinds(a: nat, b: nat)
    requires a < 32 && b < 32 && a != b
    ensures DependencyMask([StepDef(a, {b}), StepDef(b, {a})], {a}) == {a, b}
  {
    var pair := [StepDef(a, {b}), StepDef(b, {a})];
    assert {a} == {pair[0].flag, pair[0].flag} && {b} == {pair[1].flag, pair[1].flag};
    SweepTwo(pair, {a}, 0, 0, 0, 2);
    SweepTwo(pair, {b}, 1, 1, 1, 2);
    SweepTwo(pair, {a}, 2, 0, 0, 2);
    assert pair[0].deps - ({} + {a}) == {b} && pair[1].deps - ({} + {b}) == {a};
  }

  /** A cycle does not always cost a step: of two steps that depend on each other both are found. */
  lemma CyclicPairIsComplete(a: nat, b: nat)
    requires a < 32 && b < 32 && a != b
    ensures var pair := [StepDef(a, {b}), StepDef(b, {a})];
      && WellFormed(pair) && !Acyclic(GraphOf(pair))
      && IsClosureOf(GraphOf(pair), DependencyMask(pair, {a}), {a})
  {
    var pair := [StepDef(a, {b}), StepDef(b, {a})];
    var g := GraphOf(pair);
    assert pair[0].flag == a && pair[1].flag == b;
    DepsOfStep(pair, 0);
    DepsOfStep(pair, 1);
    assert Flags(pair) == {a, b} by {
      assert pair[..1] == [pair[0]];
      assert Flags(pair) == Flags(pair[..1]) + {b} && Flags(pair[..1]) == Flags([]) + {a};
    }
    assert g[a] == {b} && g[b] == {a};
    assert !Acyclic(g) by {
      var m := {a, b};
      assert m != {} && m <= g.Keys && forall f :: f in m ==> !(g[f] !! m);
      assert !HasSource(g, m);
    }
    PairFinds(a, b);
    forall t: Mask | {a} * g.Keys <= t && ClosedUnder(g, t) ensures {a, b} <= t {
      assert a in t;
    }
  }

  lemma ChainLeaves(g: Graph, m: Mask, c: seq<nat>)
    requires Chain(g, c) && c != [] && c[0] in m && c[|c| - 1] !in m
    ensures !ClosedUnder(g, m)
  {
    assert c[|c| - 1] in c;
    if ClosedUnder(g, m) {
      ClosedContainsChains(g, m, c);
    }
  }
}
