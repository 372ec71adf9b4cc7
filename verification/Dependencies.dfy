/** Dependency graphs: from each flag to the flags it depends on. */
module Dependencies {

  type Mask = set<nat>

  /** Every dependency is itself a node. */
  type Graph = g: map<nat, Mask> | forall f :: f in g ==> g[f] <= g.Keys

  ghost predicate ClosedUnder(g: Graph, m: Mask) {
    forall f :: f in m && f in g ==> g[f] <= m
  }

  /** m is the least closed set of nodes that contains the nodes of the request. */
  ghost predicate IsClosureOf(g: Graph, m: Mask, req: Mask) {
    && req * g.Keys <= m <= g.Keys
    && ClosedUnder(g, m)
    && forall t: Mask :: req * g.Keys <= t && ClosedUnder(g, t) ==> m <= t
  }

  /** Some node of m depends on no node of m. */
  ghost predicate HasSource(g: Graph, m: Mask)
    requires m <= g.Keys
  {
    exists f :: f in m && g[f] !! m
  }

  /** There is no dependency cycle: every non-empty set of nodes has a member that depends on none
      of them. */
  ghost predicate Acyclic(g: Graph) {
    forall m: Mask {:trigger HasSource(g, m)} :: m != {} && m <= g.Keys ==> HasSource(g, m)
  }

  // ----- levels

  ghost function Ready(g: Graph, m: Mask): Mask {
    set f | f in g && g[f] <= m
  }

  /** The nodes all of whose dependency chains have at most k nodes. */
  ghost function Level(g: Graph, k: nat): (m: Mask)
    ensures m <= g.Keys
  {
    if k == 0 then {} else Ready(g, Level(g, k - 1))
  }

  lemma {:induction false} LevelsGrow(g: Graph, k: nat)
    ensures Level(g, k) <= Level(g, k + 1)
  {
    if k != 0 {
      LevelsGrow(g, k - 1);
    }
  }

  lemma {:induction false} LevelsMonotone(g: Graph, j: nat, k: nat)
    requires j <= k
    ensures Level(g, j) <= Level(g, k)
    decreases k
  {
    if j < k {
      LevelsMonotone(g, j, k - 1);
      LevelsGrow(g, k - 1);
    }
  }

  lemma SizeGrows(a: Mask, b: Mask)
    requires a < b
    ensures |a| < |b|
  {
    assert b == a + (b - a);
  }

  /** Outside a set that is not everything there is a node whose dependencies are all inside. */
  lemma NextNode(g: Graph, below: Mask) returns (f: nat)
    requires Acyclic(g) && below < g.Keys
    ensures f in g && f !in below && g[f] <= below
  {
    var rest := g.Keys - below;
    var x :| x in g.Keys && x !in below;
    assert x in rest && HasSource(g, rest);
    f :| f in rest && g[f] !! rest;
  }

  /** On an acyclic graph each level is larger than the one before, until it holds every node. */
  lemma {:induction false} LevelsFill(g: Graph, k: nat)
    requires Acyclic(g)
    ensures Level(g, k) == g.Keys || |Level(g, k)| >= k
  {
    if k != 0 {
      LevelsFill(g, k - 1);
      LevelsGrow(g, k - 1);
      LargerLevel(g, Level(g, k - 1), Level(g, k));
    }
  }

  lemma LargerLevel(g: Graph, below: Mask, level: Mask)
    requires Acyclic(g) && below <= level <= g.Keys && level == Ready(g, below)
    ensures if below == g.Keys then level == g.Keys else |below| < |level|
  {
    if below == g.Keys {
      return;
    }
    var f := NextNode(g, below);
    assert f in level;
    SizeGrows(below, level);
  }

  lemma AllLevels(g: Graph, n: nat)
    requires Acyclic(g) && |g| <= n
    ensures Level(g, n) == g.Keys
  {
    LevelsFill(g, n);
    if Level(g, n) < g.Keys {
      SizeGrows(Level(g, n), g.Keys);
    }
  }

  // ----- chains

  /** Each node of the chain depends on the next one. */
  ghost predicate Chain(g: Graph, c: seq<nat>) {
    && (forall j :: 0 <= j < |c| ==> c[j] in g)
    && (forall j :: 0 <= j < |c| - 1 ==> c[j + 1] in g[c[j]])
  }

  lemma {:induction false} LevelBoundsChains(g: Graph, k: nat, c: seq<nat>)
    requires Chain(g, c) && c != [] && c[0] in Level(g, k)
    ensures |c| <= k
    decreases k
  {
    if |c| > 1 {
      LevelBoundsChains(g, k - 1, c[1..]);
    }
  }

  lemma {:induction false} LongChain(g: Graph, k: nat, f: nat) returns (c: seq<nat>)
    requires f in g && f !in Level(g, k)
    ensures Chain(g, c) && |c| == k + 1 && c[0] == f
    decreases k
  {
    if k == 0 {
      c := [f];
    } else {
      var d :| d in g[f] && d !in Level(g, k - 1);
      var rest := LongChain(g, k - 1, d);
      c := [f] + rest;
    }
  }

  /** A closed set contains everything that its members depend on, however far down the chain. */
  lemma {:induction false} ClosedContainsChains(g: Graph, m: Mask, c: seq<nat>)
    requires ClosedUnder(g, m) && Chain(g, c) && c != [] && c[0] in m
    ensures forall f :: f in c ==> f in m
  {
    if |c| > 1 {
      ClosedContainsChains(g, m, c[1..]);
      assert c == [c[0]] + c[1..];
    }
  }

  /** The smallest level that contains m. */
  ghost function Height(g: Graph, m: Mask): (h: nat)
    requires Acyclic(g) && m <= g.Keys
    ensures m <= Level(g, h)
    ensures forall k: nat :: k < h ==> !(m <= Level(g, k))
  {
    AllLevels(g, |g|);
    LeastLevel(g, m, |g|)
  }

  ghost function LeastLevel(g: Graph, m: Mask, k: nat): (h: nat)
    requires m <= Level(g, k)
    ensures h <= k && m <= Level(g, h)
    ensures forall j: nat :: j < h ==> !(m <= Level(g, j))
  {
    if k > 0 && m <= Level(g, k - 1) then LeastLevel(g, m, k - 1)
    else
      assert forall j: nat :: j < k ==> !(m <= Level(g, j)) by {
        forall j: nat | j < k ensures !(m <= Level(g, j)) { LevelsMonotone(g, j, k - 1); }
      }
      k
  }

  /** The height is the length of the longest chain that starts in m. */
  lemma HeightIsLongestChain(g: Graph, m: Mask)
    requires Acyclic(g) && m <= g.Keys && m != {}
    ensures forall c: seq<nat> :: Chain(g, c) && c != [] && c[0] in m ==> |c| <= Height(g, m)
    ensures exists c: seq<nat> :: Chain(g, c) && c != [] && c[0] in m && |c| == Height(g, m)
  {
    var h := Height(g, m);
    forall c: seq<nat> | Chain(g, c) && c != [] && c[0] in m ensures |c| <= h {
      LevelBoundsChains(g, h, c);
    }
    assert h != 0 by {
      var x :| x in m;
      assert Level(g, 0) == {};
    }
    var k := h - 1;
    assert !(m <= Level(g, k));
    var f :| f in m && f !in Level(g, k);
    var c := LongChain(g, k, f);
  }
}
